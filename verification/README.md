# Verified models of the algorithms in the vendored C modules

Lua modules written in C carry real algorithms: exact printing of floating-point numbers, a backtracking
pattern matcher, a sort that survives inconsistent comparison functions, two serializers, a JSON printer and
parser, a thread life cycle, a hash with its stream cipher. This project restates their code in Dafny, in the
same imperative form (blocks with words changed in place, cursors that move, buffers that grow, state that is
undone), and proves what that code is for.

**Numbers as text** (`cjson/src/dtoa.c`, `cjson/src/g_fmt.c`). Four layers.

- `Words`, `WordLoops`, `WordShifts`: the carry, borrow and shift loops over arrays of 32-bit words, against the
  natural number the words denote, with the 64-bit accumulators shown not to overflow.
- `Bigints`, `BigintOps`, `BigintMult`, `BigintDiv`: blocks from a pool with free lists and a private area, the
  cache of powers of five, and every operation of the kernel. Zero has two stored forms, and both are in the
  representation predicate. The pool's invariant says who owns what: held and free blocks overlap nowhere,
  each list holds blocks of its class, cached powers are never freed.
- `Workspace`, `Doubles`, `DtoaScale`, `DtoaShortest`, `DtoaFixed`, `Dtoa`: from the two words of a double through
  `d2b`, scaling, the digit loops and the final rounding, all on big integers from the pool. The results are
  stated about the double itself: a shortest decimal that reads back as it, or its correct rounding to a number
  of digits. Nothing the conversion allocates stays behind except cached powers of five.
- `GFmt`, `Fpconv`, `JsonNumber`: the layout of the digits. An independent reader of decimal text defines what a
  text denotes, and each double has exactly one text.
- `Ieee`: what the 64 bits of a double stand for, by counting from zero and doubling; the other modules' parts of a
  double are tied to it.
- `HexRound`, `HexRead`: the rounding of hexadecimal literals over the whole range of exponents, in all four modes.
  The code returns zero for two kinds of literals that round to a positive number, and its overflow test looks at
  the wrong bound; the theorems say exactly for which literals the result is right.

**Patterns** (`lua-compat-5.3/src/lstrlib.c`). `Pattern` is the list of outcomes of a pure backtracking search, in
order. `Match` is the code, with its mutable capture array, shown to return the first outcome of the list.
`PatternItems` says what single items, sets, balanced text and captures mean, read off their text, and
`PatternMeaning` puts that together to a relation "this text matches with these captures" that knows no order, for
which the list is sound and complete. `Find` is `string.find` with its
plain-text shortcut. The shortcut disagrees with the matcher for a pattern with a closing parenthesis and no
special character, because `)` is missing from the list of special characters; it agrees for all others.

**Packing** (same file). `Pack` is the format language and what each option reads and writes; `PackLoops` is the
code. `PackMeaning` and `UnpackMeaning` give every format a meaning of its own, as the items it spells, and show that
packing, unpacking and sizes agree with it on all inputs. Where the comment at the aligned padding option promises
alignment by the size of the next option, the code lets the maximum alignment cap it; the model follows the code.

**Sorting** (`lua-compat-5.3/src/ltablib.c`). `Sort` takes a comparison that may answer differently at every call;
only the ordering results assume a strict weak order.

**BSON** (`bson/src/bson.c`). `BsonWrite` and `BsonRead` are the growing buffer with lengths filled in later and the
reader, `BsonIndex` is the key index and the replacement in place, `BsonRoundTrip` puts them together;
`BsonBytes` states the bytes by the numbers of the BSON specification.

**JSON** (`cjson/src/lua_cjson.c`, `cjson/src/strbuf.c`). `Json` is the grammar as functions from positions to values,
with the escapes of section 2.5 of RFC 4627. `JsonEncode` and `JsonDecode` are the code over the string buffer of
`StrBuf`; `JsonText` and `JsonRoundTrip` show that parsing undoes printing, `JsonUnicode` that escapes of every
character decode to it. Every unchecked append of the decoder is shown to stay inside its buffer on every input.

**Threads** (`llthreads2/src/llthread.c`). `Threads` is a transition system: the operations of the owning side are
cut into the steps between which the child can run, and every interleaving is a run. `ThreadModes` follows the
arguments of start through every run.

**MD5 and its cipher** (`lua-md5/src/md5.c`, `lua-md5/src/md5lib.c`). `Md5` is the block and padding machine against
RFC 1321, for any digest step. `Cipher` is the feedback cipher, for any hash of sixteen bytes.

Small shared modules: `Arith`, `Bytes`, `CStrings`, `Decimals`, `Options`.

Verify everything with `dafny verify dfyconfig.toml`.

## Model

| member | source | states |
|---|---|---|
| Bigints.Pool.constructor | cjson/src/dtoa.c:225-232 | An empty allocator satisfies the invariant: nothing held, nothing free, no cached power. |
| Bigints.Pool.Balloc | cjson/src/dtoa.c:545-583 | Gives the first block of the free list of its class, or else a fresh one that takes its room from the private pool when it fits; the block has class k and 2^k words, was not held before, and the invariant (held and free blocks disjoint in words and pool room, each list of its own class, pool pointer within its end) is kept. |
| Bigints.Pool.Bfree | cjson/src/dtoa.c:586-607 | Puts exactly the freed block at the front of the list of its class, or releases it above the largest class; cached powers cannot be freed; the invariant is kept. |
| Bigints.Pool.HeldApart | cjson/src/dtoa.c:545-606 | A held block shares neither object nor words with any free block, the allocator or another held block. |
| Bigints.Bcopy | cjson/src/dtoa.c:609-610 | Copies sign, length and words, and leaves the link and the class of the target. |
| WordLoops.MulAddWords | cjson/src/dtoa.c:632-655 | The carry loop multiplies by m and adds a exactly, without 64-bit overflow, the carry out of the top word returned. |
| WordLoops.AddRow | cjson/src/dtoa.c:846-859 | One row of the product adds y times a at an offset, touching one word past the operand and no other. |
| WordLoops.SubMulWords | cjson/src/dtoa.c:2160-2189 | Subtracts q times the divisor and accounts exactly for what could not be subtracted. |
| WordLoops.CompareWords | cjson/src/dtoa.c:1055-1065 | The sign of comparing two numbers of one length, from the top word down. |
| Words.ValCompare | cjson/src/dtoa.c:1055-1065 | Two numbers that agree above one word are ordered as that word is. |
| Words.TopNonzero | cjson/src/dtoa.c:1047-1054 | The top word is nonzero exactly when the number needs all its words. |
| WordShifts.ShiftUpWords | cjson/src/dtoa.c:1002-1012 | Shifting by 1 to 31 bits multiplies by 2^k over words. |
| WordShifts.ShiftDownWords | cjson/src/dtoa.c:1690-1705 | Shifting down in place divides by 2^k, with the top word dropped when it becomes zero. |
| WordShifts.IncrementWords | cjson/src/dtoa.c:1650-1658 | Adds one; the overflow flag stands for the word that no longer fits. |
| BigintOps.Multadd | cjson/src/dtoa.c:613-667 | The result is b*m + a, in a larger block when needed; every other block keeps its value and the old block is given back. |
| BigintOps.PushWord | cjson/src/dtoa.c:656-665 | Adds a top word, in a block of the next class when the old one is full. |
| BigintMult.Mult | cjson/src/dtoa.c:806-913 | The result is the exact product, written within the words allocated, with no leading zero word. |
| BigintMult.MultWords | cjson/src/dtoa.c:846-912 | The rows together are the product of both operands, in the sum of their lengths. |
| BigintMult.Pow5mult | cjson/src/dtoa.c:918-972 | The result is b*5^k for every k; the cache only grows, node i holds 5^(4*2^i), and no cached node is ever freed. |
| BigintMult.Pow5Loop | cjson/src/dtoa.c:948-971 | Square-and-multiply over the bits of k reaches the product it set out for. |
| BigintMult.NextPower | cjson/src/dtoa.c:956-969 | The next cached power is reused when it exists and otherwise made by squaring and linked behind the last. |
| BigintMult.FirstPower | cjson/src/dtoa.c:934-947 | The cache starts with 625, once. |
| BigintMult.Round | cjson/src/dtoa.c:948-971 | One round of square-and-multiply leaves the product still to be reached the same. |
| BigintMult.I2b | cjson/src/dtoa.c:790-803 | A new number with the value of one word. |
| BigintDiv.Hi0bits | cjson/src/dtoa.c:708-739 | The exact number of leading zero bits. |
| BigintDiv.BitLength | cjson/src/dtoa.c:708-739 | The bit length of a number from its length in words and the leading zeros of its top word. |
| BigintDiv.Cmp | cjson/src/dtoa.c:1035-1066 | The sign of the comparison, exactly; only two zeros stored in different forms are told apart, by their lengths. |
| BigintDiv.Diff | cjson/src/dtoa.c:1069-1160 | The absolute difference in a new block, and in its sign flag which operand is smaller. |
| BigintDiv.Lshift | cjson/src/dtoa.c:975-1032 | The result is b*2^k in a new block, and the old one is given back. |
| BigintDiv.Dshift | cjson/src/dtoa.c:2106-2117 | The shift that gives the divisor exactly four leading zero bits after a shift by p2. |
| BigintDiv.FourZeroBits | cjson/src/dtoa.c:2106-2117 | A number with 32t + 28 significant bits has a top word with exactly four leading zero bits. |
| BigintDiv.Estimate | cjson/src/dtoa.c:2143-2149 | Dividing the top words, the divisor rounded up, gives the quotient or one less. |
| BigintDiv.SubtractMultiple | cjson/src/dtoa.c:2160-2197 | b - q*S without a final borrow. |
| BigintDiv.SubtractOnce | cjson/src/dtoa.c:2198-2240 | One correction step is enough: afterwards b is below S. |
| BigintDiv.Quorem | cjson/src/dtoa.c:2120-2241 | Returns floor(b/S) and leaves b mod S, whenever b < 10*S and S has four leading zero bits. |
| HexRound.AnyOn | cjson/src/dtoa.c:1710-1736 | Whether b mod 2^k is nonzero, also when k is beyond the number. |
| HexRound.Rshift | cjson/src/dtoa.c:1677-1706 | b becomes floor(b / 2^k). |
| HexRound.Increment | cjson/src/dtoa.c:1642-1669 | b + 1, in a larger block when all words wrapped. |
| HexRound.LostBits | cjson/src/dtoa.c:1953-1966 | The four-way summary is nothing, less than half, half, or more than half of what is cut off. |
| HexRound.LostDecides | cjson/src/dtoa.c:2027-2044 | Deciding by the summary gives the same integer as rounding the exact quotient in each of the four modes. |
| HexRound.RoundedIsClose | cjson/src/dtoa.c:2027-2044 | The rounded integer is nearest with ties to even, or within one place on the side the mode names. |
| HexRound.RoundLast | cjson/src/dtoa.c:2027-2060 | Increment with renormalisation gives the 53-bit significand of the rounded value and adjusts the exponent. |
| HexRound.CutSignificand | cjson/src/dtoa.c:1951-1975 | Every nonzero significand is widened or cut to exactly 53 bits, with the exponent of its lowest bit and the summary of what was cut. |
| HexRound.LostFurther | cjson/src/dtoa.c:1994-2014 | Cutting n more bits, the summary of both cuts together follows from whether anything was lost, the highest bit now cut and the bits below it. |
| HexRound.RoundedWidened | cjson/src/dtoa.c:1951-2014 | Rounding the literal at n places above its 53rd bit is rounding the widened significand at those bits, for all exponents. |
| HexRound.RoundsTop | cjson/src/dtoa.c:2027-2060 | In the normal range and above, incrementing the 53 bits by their summary gives significand and exponent of the correctly rounded literal. |
| HexRead.PackDigits | cjson/src/dtoa.c:1922-1951 | The digits, skipping the point, become the number they spell. |
| HexRead.SpelledValue | cjson/src/dtoa.c:1516-1524 | A number printed in hexadecimal, in lower or upper case, is read as that number. |
| HexRead.PointValue | cjson/src/dtoa.c:1922-1951 | A point anywhere among the digits changes nothing. |
| HexRead.GetHex | cjson/src/dtoa.c:1922-2068 | For every literal, mode and sign: the words of the literal correctly rounded, denormal results included, except zero for exactly two kinds of literals; infinity beyond the bound of the overflow test. All blocks are given back but one, which stays exactly when the smallest number is returned for a literal 53 places or more below it. |
| HexRead.TinyDelivered | cjson/src/dtoa.c:1988-2005 | Far below the smallest unit, the choice between that unit and zero is the correctly rounded literal, except for the second kind below. |
| HexRead.Denormal | cjson/src/dtoa.c:2006-2068 | Just below the normal range the words denote the literal rounded to the smallest unit; a carry to the smallest normal number is cleared to zero. |
| HexRead.RightIff | cjson/src/dtoa.c:1988-2068 | When the right result is finite, the words denote it if and only if the literal is of neither of the two kinds. |
| HexRead.RoundsToNormalIff | cjson/src/dtoa.c:1988-2066 | The first kind: the exponent of the 53 bits is one below the smallest and those bits, with what was lost, carry through all ones. |
| HexRead.HalfRoundsUp | cjson/src/dtoa.c:1991-2001 | The second kind: to the nearest, a literal above half the smallest number by less than its 53 highest bits show rounds to that number, not to zero. |
| HexRead.InfinityIff | cjson/src/dtoa.c:1976-1987 | When the right result is above the largest double, infinity comes out if and only if the rounded exponent is above 1023 or the rounded literal is the next power of two. |
| HexRead.SmallestNormalMissed | cjson/src/dtoa.c:2006-2066 | A literal that rounds to the smallest normal number and for which zero is delivered. |
| HexRead.SmallestMissed | cjson/src/dtoa.c:1991-2001 | A literal of the second kind. |
| Doubles.Lo0bits | cjson/src/dtoa.c:741-787 | The number of trailing zero bits of a nonzero word and the odd number left. |
| Doubles.D2b | cjson/src/dtoa.c:1275-1404 | The big integer and exponent denote the double exactly, and bits is the bit length, for normal and denormal doubles. |
| Ieee.WordsAreBits | cjson/src/dtoa.c:347-367 | Sign, significand and exponent of the two words are those of the 64 bits, where the bits below 2^53 count units of 2^-1074 and every 2^52 steps double the number. |
| Ieee.Distances | cjson/src/dtoa.c:347-367 | The next double is one unit in the last place away; the previous one too, or half as far below a power of two. |
| Workspace.Draw | cjson/src/dtoa.c:4286-4292 | The next digit and the remainder it leaves satisfy the division equation, and the remainder test is right for either form of zero. |
| Workspace.CompareDelta | cjson/src/dtoa.c:4202-4204 | The sign of b + mhi - S through a difference that is freed again; where both sides are zero the answer may be "below". |
| Workspace.TimesFives | cjson/src/dtoa.c:4107-4123 | Multiplying by 5^k keeps the other numbers and the account of blocks. |
| DtoaScale.Exponents | cjson/src/dtoa.c:3844-3862 | The powers of two and five on the two sides of the quotient, before cancelling. |
| DtoaScale.ScaledByExponents | cjson/src/dtoa.c:3844-3862 | With these exponents b / S equals d / 10^k. |
| DtoaScale.Align | cjson/src/dtoa.c:4152-4159 | Both numbers are shifted alike and the divisor ends with four leading zero bits. |
| DtoaScale.FixEstimate | cjson/src/dtoa.c:4160-4168 | After the test S <= b < 10*S, and k is the decimal exponent, one less than the estimate exactly when the number was multiplied by ten. |
| DtoaScale.ScaleValue | cjson/src/dtoa.c:4084-4168 | From any nonzero double and an estimate that is right or one too large, b / S is d / 10^k with one digit before the point. |
| DtoaScale.HalfUnit | cjson/src/dtoa.c:4087-4100 | The number mhi is half a unit in the last place of d, scaled as b is. |
| DtoaScale.ScaleInterval | cjson/src/dtoa.c:4084-4194 | As ScaleValue, with mlo and mhi the distances to the midpoints of the neighbours of d (a quarter below a power of two). |
| DtoaScale.ScaledDown | cjson/src/dtoa.c:4160-4168 | Ten times b over the same S is d over one less power of ten. |
| DtoaShortest.BetweenMeansNoneShorter | cjson/src/dtoa.c:4196-4283 | If all decimals of n digits around a prefix lie outside the interval then no decimal with fewer digits lies in it. |
| DtoaShortest.RoundDown | cjson/src/dtoa.c:4223-4255 | A digit kept by the tests gives the nearest decimal of its length inside the interval. |
| DtoaShortest.RoundUp | cjson/src/dtoa.c:4241-4268 | A digit raised by the tests gives the nearest decimal of its length inside the interval. |
| DtoaShortest.Drawn | cjson/src/dtoa.c:4197-4197 | Each digit is at most nine, the first is not zero, and prefix and remainder make up the number exactly. |
| DtoaShortest.Stop | cjson/src/dtoa.c:4206-4268 | Stopping at a digit yields a shortest decimal. |
| DtoaShortest.NinePast | cjson/src/dtoa.c:4261-4265 | Raising a nine can happen at the first digit only and yields ten times the power of ten. |
| DtoaShortest.Choose | cjson/src/dtoa.c:4201-4268 | Keeping, raising or going on agrees with the tests on the exact values, through comparisons on big integers. |
| DtoaShortest.Emit | cjson/src/dtoa.c:4206-4274 | Storing the digit ends with a shortest decimal, or leaves a prefix that is exact and not yet inside the interval. |
| DtoaShortest.Grow | cjson/src/dtoa.c:4275-4281 | b, mlo and mhi are multiplied by ten, also when mlo and mhi are one number. |
| DtoaShortest.Shortest | cjson/src/dtoa.c:4196-4283 | The left-right loop ends, and its digits are a decimal inside the interval (touching an end only when even), nearest of its length, with none shorter strictly inside. |
| DtoaFixed.Fixed | cjson/src/dtoa.c:4285-4329 | At most ilim digits, first and last not zero, whose value is the nearest decimal of ilim digits to b / S, ties to even. |
| DtoaFixed.RoundLast | cjson/src/dtoa.c:4306-4329 | Comparing twice the remainder with S and looking at the last digit rounds to nearest even, carries and trailing zeros included. |
| DtoaFixed.TrimZeros | cjson/src/dtoa.c:4323-4329 | Cutting trailing zeros keeps the value. |
| DtoaFixed.NearestEvenUnique | cjson/src/dtoa.c:4306-4329 | There is only one nearest integer with ties to even. |
| Decimals.Roundoff | cjson/src/dtoa.c:4314-4322 | Adding one in the last place, through runs of nine, and one more decimal exponent exactly when all digits were nine. |
| Dtoa.SameRatio | cjson/src/dtoa.c:1275-1404 | Leaving out trailing zero bits of the significand does not change d / 10^k. |
| Dtoa.OfTheDouble | cjson/src/dtoa.c:4181-4283 | What holds of the scaled interval holds of the numbers that read back as the double. |
| Dtoa.NoDoubleRoundsNinePast | cjson/src/dtoa.c:4206-4221 | The one case in which the first digit nine is carried past a nearer decimal cannot occur for a double. |
| Dtoa.ShortestDigits | cjson/src/dtoa.c:4084-4354 | For every finite nonzero double: the digits are a shortest decimal that reads back as it, the nearest of that length, and no big integer is left behind except cached powers. |
| Ieee.HalfWay | cjson/src/dtoa.c:4130-4142 | The interval of the shortest digits reaches exactly half way to the previous and to the next double. |
| Ieee.SameNumber | cjson/src/dtoa.c:1275-1404 | The double over 10^k is the number of its bits over 10^k. |
| Dtoa.FixedDigits | cjson/src/dtoa.c:4084-4354 | For every finite nonzero double: the digits are the double correctly rounded to ndigits digits, ties to even, and no big integer is left behind except cached powers. |
| Dtoa.EstimateRange | cjson/src/dtoa.c:3834-3843 | Every estimate of the decimal exponent of a double lies between -360 and 343. |
| Dtoa.SameRounding | cjson/src/dtoa.c:4285-4329 | The rounded digits depend on the number only, not on how it is split in significand and exponent. |
| GFmt.ReadLayout | cjson/src/g_fmt.c:61-104 | Reading a text of sign, digits, point, fraction and exponent gives back the number of its parts. |
| GFmt.PutExponent | cjson/src/g_fmt.c:76-84 | The exponent is written in full with two digits at least, and no more than it needs. |
| GFmt.Scientific | cjson/src/g_fmt.c:61-86 | The exponent form: one digit, the point and the others, and the exponent. |
| GFmt.Fraction | cjson/src/g_fmt.c:87-94 | The form 0.00ddd. |
| GFmt.Plain | cjson/src/g_fmt.c:95-104 | The digits with a point among them, or zeros behind. |
| GFmt.Format | cjson/src/g_fmt.c:51-104 | For every sign, digit string and decimal point the text is one determined by them, denotes exactly that number and fits the room. |
| GFmt.TextDenotes | cjson/src/g_fmt.c:61-104 | The text, read as a decimal number, is the digits with their point and sign. |
| GFmt.TextForm | cjson/src/g_fmt.c:61-104 | It has an exponent exactly for a point three or more zeros before the digits or beyond the precision, and the text of a negative number is a minus sign before the other. |
| GFmt.FitsIn21 | cjson/src/g_fmt.c:61-104 | With a precision of 14 at most and a decimal point within 999 places the text has at most 21 characters. |
| Fpconv.FormatDouble | cjson/src/g_fmt.c:40-108 | Every double is written: zero and non-numbers by their names, every other one as the text of the digits of its bits correctly rounded to the precision, at most 21 characters long. |
| Fpconv.ReadsAsRounded | cjson/src/g_fmt.c:40-108 | Read as a decimal number, the text is the multiple of the last place of the precision nearest to the double, ties to even, and has the sign of bit 31 of the high word. |
| Fpconv.RoundedUnique | cjson/src/g_fmt.c:40-108 | The rounded digits and their exponent are determined, so that each double has one text. |
| Fpconv.MinusSign | cjson/src/g_fmt.c:51-53 | For every bit pattern without the sign bit, zeros, infinities and non-numbers included: setting that bit puts a minus sign before the text, which has none itself. |
| Fpconv.Names | cjson/src/g_fmt.c:54-60 | Zero bits are written 0, the bits 7ff00000 00000000 inf, and those above nan. |
| Fpconv.IntegerBits | cjson/src/dtoa.c:347-367 | The double is the integer n exactly when its bits count n * 2^1074 units. |
| Fpconv.WholeNumber | cjson/src/g_fmt.c:95-104 | A double that is an integer of at most precision digits is printed without loss. |
| JsonNumber.IntegerText | cjson/src/lua_cjson.c:586-614 | A double that is an integer below 10^14 is written as its decimal digits, with a minus sign when negative; zero is "0" and negative zero "-0". |
| Match.ClassEndOf | lua-compat-5.3/src/lstrlib.c:253-274 | The position behind the single-character item, or the malformed-pattern error. |
| PatternItems.EndMeans | lua-compat-5.3/src/lstrlib.c:253-274 | An item is one character, a percent sign and one character, or a set up to the first closing bracket that is not its first character and not escaped by an odd run of percent signs. |
| Match.BracketClass | lua-compat-5.3/src/lstrlib.c:297-317 | Membership in a set with ranges, classes and complement. |
| PatternItems.ClassMeans | lua-compat-5.3/src/lstrlib.c:277-294 | Each of the eleven letters accepts what has its property, and its capital what has not. |
| PatternItems.NoClass | lua-compat-5.3/src/lstrlib.c:277-294 | Any other character accepts itself. |
| PatternItems.SetIsParts | lua-compat-5.3/src/lstrlib.c:297-317 | The set read by the code accepts a character exactly when one of its elements does: characters, ranges with both ends, classes. |
| PatternItems.SingleMeans | lua-compat-5.3/src/lstrlib.c:320-333 | An item accepts a character exactly when its text does: any, the character, its class, or its set, complemented after a caret. |
| PatternItems.FrontierMeans | lua-compat-5.3/src/lstrlib.c:436-447 | The frontier is between a character that the set does not accept and one that it does, the ends counting as NUL. |
| Match.MatchBalance | lua-compat-5.3/src/lstrlib.c:336-353 | The end of the balanced text for %b. |
| PatternItems.BalancedMeans | lua-compat-5.3/src/lstrlib.c:336-353 | %b accepts the shortest text that begins with an opening bracket and has as many closing ones. |
| Match.MatchState.CaptureToClose | lua-compat-5.3/src/lstrlib.c:245-250 | The last open capture, or the invalid-capture error when there is none. |
| Match.MatchState.CheckCapture | lua-compat-5.3/src/lstrlib.c:237-242 | The number a back-reference names, exactly when that digit stands for a capture that exists and is not open; any other character is the invalid-capture error. |
| PatternItems.ReferredMeans | lua-compat-5.3/src/lstrlib.c:237-242 | A digit from 1 on refers to the capture of that number when it exists and is not open. |
| Match.MatchState.StartCapture | lua-compat-5.3/src/lstrlib.c:384-395 | Tries the rest with one more open capture and takes it back on failure; too many captures is an error. |
| Match.MatchState.EndCapture | lua-compat-5.3/src/lstrlib.c:398-406 | Tries the rest with the last open capture closed and opens it again on failure. |
| PatternItems.CloseMeans | lua-compat-5.3/src/lstrlib.c:398-406 | A closed capture covers exactly the text from where it was opened to where it was closed, and the others stay. |
| Match.MatchState.MaxExpand | lua-compat-5.3/src/lstrlib.c:356-368 | Tries the repetitions from the most down, as the specification orders them. |
| Match.MatchState.MinExpand | lua-compat-5.3/src/lstrlib.c:371-381 | Tries the repetitions from none up. |
| Match.MatchState.MatchCapture | lua-compat-5.3/src/lstrlib.c:409-417 | The end of the stretch from s that repeats a closed capture, exactly when the subject holds the captured text there; nothing for a position capture. |
| PatternItems.RepeatsMeans | lua-compat-5.3/src/lstrlib.c:409-417 | A back-reference accepts the captured text again, and nothing else. |
| Match.MatchState.MatchItem | lua-compat-5.3/src/lstrlib.c:481-513 | An item with its suffix has the outcomes the specification gives it, in order. |
| Match.MatchState.Match | lua-compat-5.3/src/lstrlib.c:420-519 | Returns the end of the first match in the order of the backtracking specification with its captures, or raises its first error, or fails exactly when there is none; on failure level, captures and depth are as before; always ends. |
| PatternMeaning.Sound | lua-compat-5.3/src/lstrlib.c:420-519 | Every match found is a match in the declarative meaning of patterns, which knows no search order and takes items, sets, balanced text, frontiers and captures by their own meanings. |
| PatternMeaning.Complete | lua-compat-5.3/src/lstrlib.c:420-519 | Every match there is is found, unless the nesting limit is reached first. |
| PatternMeaning.SoundCall | lua-compat-5.3/src/lstrlib.c:420-519 | Soundness through the depth-limited call. |
| PatternMeaning.CompleteCall | lua-compat-5.3/src/lstrlib.c:420-519 | Completeness through the depth-limited call. |
| PatternMeaning.NeverTooComplex | lua-compat-5.3/src/lstrlib.c:420-519 | From any place in a pattern the nesting limit is not reached when the depth left is at least the rest of the pattern. |
| PatternMeaning.LongestFirst | lua-compat-5.3/src/lstrlib.c:356-368 | The greedy repetition takes the largest number of repetitions after which the rest can go on. |
| PatternMeaning.ShortestFirst | lua-compat-5.3/src/lstrlib.c:371-381 | The lazy repetition takes the smallest one. |
| Find.MemChr | lua-compat-5.3/src/lstrlib.c:528-541 | The first occurrence of a character in a stretch of text. |
| Find.MemFind | lua-compat-5.3/src/lstrlib.c:523-542 | The leftmost place at or after the start where the text stands, or none. |
| Find.NoSpecials | lua-compat-5.3/src/lstrlib.c:575-583 | Whether a pattern, embedded NULs included, has none of the special characters. |
| Find.PushCaptures | lua-compat-5.3/src/lstrlib.c:545-571 | Pushing fails exactly when a capture is still open. |
| Find.PlainText | lua-compat-5.3/src/lstrlib.c:575-604 | For a pattern without special characters and without a closing parenthesis, matching at a place is standing there. |
| Find.ParenthesisRaises | lua-compat-5.3/src/lstrlib.c:398-406 | A closing parenthesis in a pattern taken as plain makes the matcher raise an error instead. |
| Find.AgreeIffNoParenthesis | lua-compat-5.3/src/lstrlib.c:586-604 | For a pattern without special characters the plain search agrees with the matcher from each start exactly when no closing parenthesis is in it. |
| Find.Search | lua-compat-5.3/src/lstrlib.c:605-630 | The leftmost start with a match, or the error that comes first. |
| Find.FindText | lua-compat-5.3/src/lstrlib.c:586-635 | string.find returns the leftmost span with its captures, whether by the fast path or the matcher, except for the closing-parenthesis case. |
| Find.NothingToFind | lua-compat-5.3/src/lstrlib.c:605-635 | No match reported means no match at any start. |
| Find.FoundIsMatch | lua-compat-5.3/src/lstrlib.c:605-635 | A span reported is a match of the pattern with those captures, and at no earlier start is there any match. |
| Find.ShortPatternExact | lua-compat-5.3/src/lstrlib.c:420-519 | For a pattern shorter than the nesting limit the search never gives up, and the outcomes it can report are exactly the matches. |
| Sort.Set2 | lua-compat-5.3/src/ltablib.c:236-239 | Swaps two slots and nothing else. |
| Sort.SortTwo | lua-compat-5.3/src/ltablib.c:263-270 | Puts two slots in order; the table stays a permutation whatever the comparison answers. |
| Sort.MedianOfThree | lua-compat-5.3/src/ltablib.c:258-283 | Low, middle and high are in order for a strict weak order. |
| Sort.ScanUp | lua-compat-5.3/src/ltablib.c:290-294 | Stops at an element not below the pivot or raises; never leaves the segment. |
| Sort.ScanDown | lua-compat-5.3/src/ltablib.c:296-300 | Stops at an element not above the pivot or raises; never leaves the segment. |
| Sort.Partition | lua-compat-5.3/src/ltablib.c:284-307 | A permutation of the segment; for a strict weak order it never raises and parts the segment at the pivot. |
| Sort.Crossed | lua-compat-5.3/src/ltablib.c:301-307 | When the scans have crossed the pivot goes between the two parts. |
| Sort.Exchanged | lua-compat-5.3/src/ltablib.c:288-304 | Exchanging where both scans stopped extends the two sides. |
| Sort.AfterPart | lua-compat-5.3/src/ltablib.c:308-315 | After one part is sorted only the other can be out of order. |
| Sort.AuxSort | lua-compat-5.3/src/ltablib.c:256-317 | For any comparison, even an inconsistent one, it ends, permutes only l..u and nests at most log2 of the length; for a strict weak order it sorts without raising. |
| Sort.TableSort | lua-compat-5.3/src/ltablib.c:319-328 | The table is a permutation of the old one; sorted for a strict weak order. |
| PackLoops.GetNum | lua-compat-5.3/src/lstrlib.c:1031-1041 | The number in the format, reading stopping before it could overflow, or the default. |
| PackLoops.GetNumLimit | lua-compat-5.3/src/lstrlib.c:1048-1054 | A size between 1 and 16 or an error. |
| Pack.OptionAt | lua-compat-5.3/src/lstrlib.c:1070-1105 | Whatever character stands there, the option ends inside the format, integer and length options have 1 to 16 bytes, only the letters without data change the header, and the maximum alignment stays in 1 to 16. |
| PackMeaning.ItemRead | lua-compat-5.3/src/lstrlib.c:1070-1105 | The code reads every item by its letter, its size or default, and its numeral, and changes byte order and alignment as the item says. |
| PackLoops.GetDetails | lua-compat-5.3/src/lstrlib.c:1117-1135 | The alignment and the bytes needed to reach it, including X. |
| PackMeaning.DetailRead | lua-compat-5.3/src/lstrlib.c:1117-1135 | The alignment of an item is its size but at most the maximum in force, and an error unless a power of two. |
| PackLoops.PackInt | lua-compat-5.3/src/lstrlib.c:1144-1158 | Writes the two's complement of any size in either byte order, sign-extended above eight bytes. |
| PackLoops.ExtendedIsComplement | lua-compat-5.3/src/lstrlib.c:1144-1158 | Filling with ones above eight bytes is the two's complement in the larger size. |
| PackLoops.UnpackInt | lua-compat-5.3/src/lstrlib.c:1296-1319 | The integer the bytes stand for, or an error when the bytes above the eighth show that it does not fit. |
| PackLoops.Unread | lua-compat-5.3/src/lstrlib.c:1308-1318 | The bytes above the eighth being all zeros or all ones is exactly the number fitting 64 bits. |
| PackLoops.CopyWithEndian | lua-compat-5.3/src/lstrlib.c:1165-1176 | The image as it is or reversed. |
| Pack.IntRoundTrip | lua-compat-5.3/src/lstrlib.c:1144-1319 | Every integer a size accepts is read back from its bytes. |
| Pack.DecodeEncoded | lua-compat-5.3/src/lstrlib.c:1179-1383 | One value is read back from the middle of any data with the position behind it, exactly when it is no zero-terminated string whose length an int cannot hold. |
| Pack.PackStep | lua-compat-5.3/src/lstrlib.c:1179-1260 | Each option adds its padding, its bytes and the rest. |
| Pack.UnpackPacked | lua-compat-5.3/src/lstrlib.c:1179-1383 | unpack(fmt, pack(fmt, args)) gives the arguments the format takes and the position behind them, if and only if no zero-terminated string is too long for an int. |
| Pack.SizeIsLength | lua-compat-5.3/src/lstrlib.c:1263-1285 | When packsize returns, it is the packed length for all arguments. |
| PackLoops.EncodeValue | lua-compat-5.3/src/lstrlib.c:1188-1255 | The bytes of one argument or the error of a value that does not fit. |
| PackMeaning.ImageWritten | lua-compat-5.3/src/lstrlib.c:1188-1255 | The bytes are the image of the argument: an integer by its residue modulo 256^size, read from the lowest byte in the order in force; numbers in that order, lengths before strings, zeros behind them. |
| PackLoops.DecodeValue | lua-compat-5.3/src/lstrlib.c:1337-1378 | The value at a position and where it ends, or an error; the length of a zero-terminated string is what its cast to int leaves. |
| UnpackMeaning.ValueRead | lua-compat-5.3/src/lstrlib.c:1337-1378 | The value read is the one whose residue the bytes are, inside the range of its option; strings by their length or up to the next zero. |
| PackLoops.StrPack | lua-compat-5.3/src/lstrlib.c:1179-1260 | The packed string for every format and argument list, or an error. |
| PackMeaning.PackIs | lua-compat-5.3/src/lstrlib.c:1179-1260 | For every format and arguments, the packed bytes are what the items that the format spells mean: zeros to align, then the image, one item after the other. |
| UnpackMeaning.PackIff | lua-compat-5.3/src/lstrlib.c:1179-1260 | pack succeeds with these bytes if and only if the format spells items that mean them. |
| UnpackMeaning.Shorts | lua-compat-5.3/src/lstrlib.c:1098-1099 | A short integer packs to its low and high byte after < and to the high and low byte after >. |
| PackLoops.StrPackSize | lua-compat-5.3/src/lstrlib.c:1263-1285 | The size for every format of fixed size, or an error. |
| UnpackMeaning.SizeIs | lua-compat-5.3/src/lstrlib.c:1263-1285 | For every format, packsize is the sum of padding and sizes of its items, unless one is a string or the sum passes an int. |
| PackLoops.StrUnpack | lua-compat-5.3/src/lstrlib.c:1322-1383 | The values and the position for every format, data and start, or an error. |
| UnpackMeaning.UnpackIs | lua-compat-5.3/src/lstrlib.c:1322-1383 | For every format and any data, the values and the end are what the items that the format spells mean there. |
| PackLoops.PackThenUnpack | lua-compat-5.3/src/lstrlib.c:1179-1383 | Packing and then unpacking at position 1 gives the arguments back with the length plus one, if and only if no zero-terminated string is too long for an int; packsize agrees. |
| Bson.IndexFromKey | bson/src/bson.c:401-408 | The key of an array element, printed in decimal, parses back to its index. |
| Bson.WidthRightIff | bson/src/bson.c:253-269 | The truncated shift picks 32 bits exactly for the integers that fit, and the integer is stored unchanged, if and only if it is not among the 2^31 smallest or the 2^31 largest of 64 bits. |
| BsonBytes.ElementBytes | bson/src/bson.c:301-452 | Every element is its type number, key, zero and value bytes as the BSON specification lists them, numbers by the natural that their bytes make. |
| BsonBytes.ElementsInOrder | bson/src/bson.c:411-452 | The elements follow each other in order, the keys of an array being its indices in decimal. |
| BsonBytes.KeyDigits | bson/src/bson.c:401-408 | The key of an array element ends in its last decimal digit, and the rest is the key of the number without it. |
| BsonBytes.LuaForms | bson/src/bson.c:521-634 | Values without a type in Lua are strings of a zero, the type number and the bytes. |
| BsonWrite.Buffer.Reserve | bson/src/bson.c:81-94 | Growing keeps the contents and makes room without passing an int. |
| BsonWrite.Buffer.WriteBytes | bson/src/bson.c:292-298 | Appends exactly these bytes. |
| BsonWrite.Buffer.WriteInt | bson/src/bson.c:186-228 | Appends the low bytes of an integer, lowest first. |
| BsonWrite.Buffer.ReserveLength | bson/src/bson.c:213-218 | Leaves four bytes behind the contents, which stay. |
| BsonWrite.Buffer.WriteLength | bson/src/bson.c:196-202 | Fills in those four bytes and changes no other. |
| BsonWrite.AppendNumber | bson/src/bson.c:252-269 | Chooses the width by the truncated shift and writes type, key and that many bytes. |
| BsonWrite.AppendOne | bson/src/bson.c:301-398 | One element: type, key and value, integers in the width the writer chooses. |
| BsonWrite.PackDict | bson/src/bson.c:411-452 | Elements between a length that counts all its bytes and a closing zero, at every level and through all growth of the buffer, integers in the width the writer chooses. |
| BsonWrite.Encode | bson/src/bson.c:846-857 | A document is encoded as its framed elements. |
| BsonRead.Reader.ReadCString | bson/src/bson.c:162-177 | The bytes before the next zero, or an error when there is none. |
| BsonRead.Reader.ReadInt | bson/src/bson.c:115-134 | A number in two's complement, and the position behind it. |
| BsonRead.Reader.ReadBytes | bson/src/bson.c:153-159 | The next bytes, or an error when there are fewer. |
| BsonRead.UnpackDict | bson/src/bson.c:498-636 | The table of what was encoded, with the reader behind it; on other bytes it still ends and stays inside the data. |
| BsonRead.UnpackElement | bson/src/bson.c:509-634 | One element read is the one encoded. |
| BsonRead.UnpackValue | bson/src/bson.c:521-634 | A value of its type is read back. |
| BsonRead.Readable | bson/src/bson.c:104-177 | What the single reads will find where a value was encoded. |
| BsonRead.Decode | bson/src/bson.c:811-823 | Decoding the bytes of a document gives its value. |
| BsonRead.WholeLength | bson/src/bson.c:411-452 | The length prefix of a framed body is the number of all its bytes. |
| BsonRoundTrip.EncodeThenDecode | bson/src/bson.c:301-636 | Decoding an encoded document gives the nested value with its integers as the writer stores them; it is the same value if and only if no integer in it is at the ends of 64 bits. |
| BsonRoundTrip.PickedBack | bson/src/bson.c:253-269 | At any depth, storing the integers in the chosen widths keeps the value if and only if none is at the ends of 64 bits. |
| BsonIndex.MakeIndex | bson/src/bson.c:639-721 | Every entry of the index names the type and the offset of the value bytes of its key, for every field of fixed size and for no other. |
| BsonIndex.IndexElement | bson/src/bson.c:645-716 | One more element keeps the index right. |
| BsonIndex.NotIndexed | bson/src/bson.c:652-715 | A key is in the index exactly when its value has a fixed size. |
| BsonIndex.Replace | bson/src/bson.c:760-808 | A value of the same type is overwritten in place, giving exactly the encoding of the document with that field changed; any other value changes nothing. |
| BsonIndex.ReplacementKeeps | bson/src/bson.c:724-808 | What replaces a value has its type and size. |
| BsonIndex.OnlyThatValue | bson/src/bson.c:760-808 | Changing one field to a value of the same size changes only its bytes. |
| BsonIndex.Found | bson/src/bson.c:765-774 | The index entry gives back type and offset of the field, which lies inside the document. |
| BsonRoundTrip.IdFits | bson/src/bson.c:639-721 | Type and offset packed in one number fit an int below 2^26 bytes. |
| BsonRoundTrip.EntriesReplaced | bson/src/bson.c:760-808 | The decoded table of the changed document is the old one with one entry changed. |
| BsonRoundTrip.ReplaceThenDecode | bson/src/bson.c:639-823 | Index, replace and decode: the old table changed at that one key, or everything unchanged; it succeeds if and only if some field of fixed size has that key and takes the value. |
| StrBuf.Buffer.Resize | cjson/src/strbuf.c:134-180 | Doubling reaches the length asked for and keeps the text. |
| StrBuf.Buffer.AppendMemUnsafe | cjson/src/strbuf.h:134-138 | Appends without a check when there is room. |
| StrBuf.Buffer.AppendString | cjson/src/strbuf.c:182-198 | Appends, growing only when the room is used up. |
| Json.Utf8RoundTrip | cjson/src/lua_cjson.c:773-806 | The bytes written for a code point decode to that code point and are as few as UTF-8 allows, for all up to 0x10FFFF. |
| JsonEncode.AppendString | cjson/src/lua_cjson.c:461-485 | The quoted and escaped string, within the room made once at the start. |
| JsonUnicode.EscapeForm | cjson/src/lua_cjson.c:151-190 | Quotes, backslashes, slashes and control characters are escaped, nothing else is, and no control character is left. |
| JsonEncode.AppendArray | cjson/src/lua_cjson.c:564-584 | The elements between brackets, commas between them. |
| JsonEncode.AppendObject | cjson/src/lua_cjson.c:616-655 | The members between braces, keys quoted. |
| JsonEncode.AppendData | cjson/src/lua_cjson.c:658-699 | The text of a nested value, or the nesting error exactly when it is too deep. |
| JsonText.TextForm | cjson/src/lua_cjson.c:658-699 | null, true, false, quoted strings, and items or members with commas between them inside brackets or braces. |
| JsonEncode.Encode | cjson/src/lua_cjson.c:701-730 | The text of the value or the error. |
| JsonDecode.Parser.constructor | cjson/src/lua_cjson.c:1251-1275 | The scratch buffer holds as many characters as the whole text. |
| JsonDecode.Parser.DecodeHex4 | cjson/src/lua_cjson.c:750-769 | The value of four hexadecimal digits, or failure. |
| JsonDecode.Parser.AppendUnicodeEscape | cjson/src/lua_cjson.c:817-873 | The UTF-8 of an escape or a surrogate pair, unchecked and inside the buffer; any other escape fails. |
| JsonUnicode.EscapeRead | cjson/src/lua_cjson.c:817-873 | The UTF-16 code of every character, one group of four hexadecimal digits or a surrogate pair, in upper or lower case, is read as that character. |
| JsonUnicode.LoneSurrogate | cjson/src/lua_cjson.c:817-873 | A surrogate that begins no pair is an error. |
| JsonDecode.Parser.NextStringToken | cjson/src/lua_cjson.c:883-941 | The string token or an error, on every input; every unchecked append stays inside the scratch buffer. |
| JsonUnicode.EscapesRead | cjson/src/lua_cjson.c:883-941 | A string of escapes is read as the UTF-8 text of its characters. |
| JsonUnicode.ShortEscapes | cjson/src/lua_cjson.c:432-441 | The escapes of one letter are those of RFC 4627, and there are no others. |
| JsonDecode.Parser.NextToken | cjson/src/lua_cjson.c:1012-1089 | The token the grammar has at this place. |
| JsonDecode.Parser.ProcessValue | cjson/src/lua_cjson.c:1222-1249 | The value the grammar gives, the nesting depth restored. |
| JsonDecode.Parser.ParseObject | cjson/src/lua_cjson.c:1133-1181 | The object the grammar gives, or an error. |
| JsonDecode.Parser.ParseArray | cjson/src/lua_cjson.c:1184-1219 | The array the grammar gives, or an error. |
| JsonDecode.Decode | cjson/src/lua_cjson.c:1251-1289 | The value of the whole text, trailing text being an error. |
| JsonUnicode.DecodeEscapes | cjson/src/lua_cjson.c:1251-1289 | Decoding a text that is one string of such escapes gives exactly their characters. |
| JsonText.EscapeBack | cjson/src/lua_cjson.c:461-485 | The escape of a character is read back as that character. |
| JsonText.StringBack | cjson/src/lua_cjson.c:883-941 | A quoted string is read back whole. |
| JsonText.NumberBack | cjson/src/lua_cjson.c:994-1006 | The digits of an integer below 10^14 are read back as that integer. |
| JsonText.ValueBack | cjson/src/lua_cjson.c:1222-1249 | The text of a value anywhere in a document is read back as that value. |
| JsonText.ParseText | cjson/src/lua_cjson.c:1251-1289 | Parsing the text of a value gives the value. |
| JsonNumber.IntegerLayout | cjson/src/lua_cjson.c:586-614 | Digits followed by zeros up to the point are the decimal text of the integer. |
| JsonUnicode.DecimalDigit | cjson/src/lua_cjson.c:586-614 | Digits are the ten decimal characters in order. |
| JsonRoundTrip.EncodeThenDecode | cjson/src/lua_cjson.c:701-1289 | Encoding and decoding within equal depth limits is the identity; a value nested too deep is refused by the encoder. |
| Threads.StartKeeps | llthreads2/src/llthread.c:373-403 | Every step of starting, interleaved with the child, keeps the invariant. |
| Threads.JoinKeeps | llthreads2/src/llthread.c:405-458 | Every step of joining keeps it. |
| Threads.DetachKeeps | llthreads2/src/llthread.c:341-361 | Every step of detaching keeps it. |
| Threads.DeleteKeeps | llthreads2/src/llthread.c:296-331 | Every step of the destructor keeps it. |
| Threads.ChildKeeps | llthreads2/src/llthread.c:211-245 | Every step of the child thread keeps it, at any point of the parent. |
| Threads.StepKeeps | llthreads2/src/llthread.c:211-622 | Every step of either side keeps the invariant. |
| Threads.RunKeeps | llthreads2/src/llthread.c:211-622 | Every state of every interleaving satisfies it. |
| Threads.EveryRunIsSafe | llthreads2/src/llthread.c:211-622 | In every interleaving: no assertion of llthread_validate fails, the child state is never used after its end, it is destroyed at most once and by the side the table names, and the thread is released at most once. |
| ThreadModes.AsAsked | llthreads2/src/llthread.c:363-403 | From start(detached, joinable) on, in every interleaving: both structures hold that mode once the thread runs, only the side the table gives for it destroys the child state, and the thread is detached at start, in the destructor or never as the table says. |
| ThreadModes.EndsAsAsked | llthreads2/src/llthread.c:296-403 | At the end of such a run that side has destroyed the state once, and the thread was joined or detached as the mode asks. |
| ThreadModes.JoinEnds | llthreads2/src/llthread.c:540-600 | A join is refused, and changes nothing, exactly for a thread detached at start or joined before; any other ends with the child exited and its state destroyed, or without waiting finds it alive. |
| ThreadModes.DeleteIsFinal | llthreads2/src/llthread.c:525-536 | Once the destructor has begun no later operation finds the object. |
| Threads.NothingLeaks | llthreads2/src/llthread.c:211-622 | When the object is gone and no child runs, the state was destroyed exactly once and the thread joined or detached exactly once. |
| Threads.NoDeadlock | llthreads2/src/llthread.c:211-622 | Some step is possible until both have ended. |
| Md5.BytesToWord32 | lua-md5/src/md5.c:150-160 | Sixty-four bytes as sixteen words, lowest byte first. |
| Md5.WordIsNatural | lua-md5/src/md5.c:150-160 | Each word is the number of its four bytes, the lowest first. |
| Md5.Converte | lua-md5/src/md5.c:176-191 | The words of a full block, or of the tail with its mark and zeros, and which state follows. |
| Md5.PutLength | lua-md5/src/md5.c:163-167 | Words 14 and 15 take the bit count as the shifts leave it, which is the length in bits modulo 2^64 if and only if fewer than four bits lie above the low word; the other words stay. |
| Md5.LengthExact | lua-md5/src/md5.c:163-167 | The written count is the length in bits modulo 2^64 if and only if fewer than four bits lie above the low word, and so for all lengths below 2^32. |
| Md5.WholeBlock | lua-md5/src/md5.c:195-213 | A full block of the message is a block of what is digested. |
| Md5.ShortTail | lua-md5/src/md5.c:195-213 | With at most 55 bytes left, the tail and the written count are the last block. |
| Md5.LongTail | lua-md5/src/md5.c:195-213 | With 56 to 63 bytes left, the tail is one block, and zeros with the written count are the last. |
| Md5.WrittenIsPadded | lua-md5/src/md5.c:163-213 | The blocks that are digested are the message padded by sections 3.1 and 3.2 of RFC 1321 if and only if the length meets that condition. |
| Md5.PaddedIs | lua-md5/src/md5.c:163-213 | Padding is a one bit, the fewest zeros that leave room in whole blocks, and the length in bits modulo 2^64. |
| Md5.Word32ToBytes | lua-md5/src/md5.c:68-77 | The digest as bytes, lowest first. |
| Md5.DigestBytes | lua-md5/src/md5.c:68-77 | The digest holds the four words in order, each as the number of its four bytes, the lowest first. |
| Md5.Md5 | lua-md5/src/md5.c:195-213 | For a message of any length the status loop ends and folds the digest step over exactly the blocks of the message, its mark, zeros and the written count; these are the blocks of RFC 1321 whenever the count is right. |
| Md5.InitialBytes | lua-md5/src/md5.c:80-85 | The starting words are the bytes of section 3.3 of RFC 1321. |
| Md5.OneBlock | lua-md5/src/md5.c:195-213 | After a block each word is the sum of the step's result and the word before, modulo 2^32. |
| Cipher.InitBlock | lua-md5/src/md5lib.c:67-76 | The feedback block is the seed, zeros up to sixteen, and the key, byte by byte. |
| Cipher.XorChunk | lua-md5/src/md5lib.c:79-110 | A chunk of up to sixteen bytes is combined with the hash. |
| Cipher.CodeStream | lua-md5/src/md5lib.c:79-93 | The ciphertext of the whole message, the block fed with each cipher chunk. |
| Cipher.ChunkOf | lua-md5/src/md5lib.c:79-93 | Each chunk of the ciphertext is the chunk of the message xored with a hash of the first block or of the ciphertext chunk before it and the key. |
| Cipher.DecodeStream | lua-md5/src/md5lib.c:96-110 | The plaintext of the whole text with the same feedback. |
| Cipher.DecodeEncoded | lua-md5/src/md5lib.c:79-110 | Decoding what was encoded from the same block gives the message, partial last chunk included. |
| Cipher.Crypt | lua-md5/src/md5lib.c:123-142 | The seed length, the seed and the ciphertext, or an error for a seed or key too long. |
| Cipher.Decrypt | lua-md5/src/md5lib.c:153-167 | The plaintext, or an error for a text too short or a seed or key too long. |
| Cipher.CryptThenDecrypt | lua-md5/src/md5lib.c:123-167 | decrypt(crypt(msg, key, seed), key) is msg for every message, key of at most 256 bytes and seed of at most sixteen. |

## Left out

- BigintDiv.Cmp: exact except for two zeros stored in different forms, where the code answers by their lengths; the contract says so, and the digit loops are proved with that answer.
- Workspace.CompareDelta: two zeros may compare as "below" instead of equal, for the same reason; the loop is shown to be right either way.
- DtoaShortest.Shortest: from an arbitrary scaled start the digit nine can be carried past a nearer decimal; its postcondition names that start, and Dtoa.NoDoubleRoundsNinePast shows that no double has it.
- DtoaShortest.Shortest: mode 0 only; mode 1 and the left-right forms with a digit limit (modes 4 and 5) are not modelled.
- DtoaFixed.Fixed: at least one digit, as in mode 2; mode 3 with no digit left is not modelled.
- Dtoa.FixedDigits: the floating-point shortcuts that dtoa tries first (for few digits, and for small integers) are not modelled, since they need the rounding of hardware arithmetic; the exact path is.
- Dtoa.ShortestDigits: the estimate of the decimal exponent by a floating-point logarithm is a parameter, required to be right or one too large.
- Fpconv.FormatDouble: a precision of 1 to 14, which is what the configuration of the encoder allows; the string that dtoa allocates for its digits is a sequence here.
- HexRead.GetHex: the scan of the text, the early answers for an exponent of too many digits, and errno are left out: the digits and the binary exponent are parameters.
- `fpconv_strtod` with its approximation and correction loop, and `bigcomp`: hardware double arithmetic; the latter's end test does not look at the digit just produced.
- Compilation for VAX, IBM, 16-bit words and Honor_FLT_ROUNDS; the locks of the multi-threaded build around the pool and the cache.
- BigintMult.Mult: not both operands stored without words, where the code returns a block none of whose words it has set; memory exhaustion is not modelled, and block classes are unbounded naturals.
- BigintOps.Multadd: no nonzero addend on a number stored without words, where the code reads and stores a word that the number does not count.
- BigintDiv.Diff: not two zeros, where the code may compare words that the numbers do not have.
- BigintDiv.Lshift: not a number stored without words, where the code shifts a word that the number does not count.
- Bigints.Bcopy: not a number stored without words, whose copy would have an unset first word.
- Match.MatchState.Match: character classes are given predicates; pointers are positions.
- Find.FindText: `find` only; `match`, `gmatch` and `gsub`, and reading the captures out as strings, are not modelled.
- Sort.TableSort: the table is an array of comparable elements; metamethods and the limit on its size are not modelled.
- PackMeaning.PackIs: counts of characters above 2147483639 are excluded, since the code stops reading inside such a numeral; UnpackMeaning.PackIff shows that no format with one packs anything.
- Pack.UnpackPacked: floating-point values are byte images of their size, and the conversion between numbers and images is not modelled.
- PackLoops.StrUnpack: a length prefix whose sum with the position wraps around in the size type is an error like any other length beyond the data; the code would go on to ask for a string that large.
- PackLoops.DecodeValue: likewise, a zero-terminated string whose length becomes negative in the cast to int is an error.
- BsonWrite.Encode: documents below 2^30 bytes; binary, regular expression, code, symbol and pointer types are left out, as are keys that hold a NUL and floating-point numbers that are not given as images.
- BsonWrite.AppendOne: whether a table is an array is part of the value, not found out from its keys.
- BsonRead.UnpackDict: the same types are left out.
- BsonRead.UnpackValue: the same types are left out.
- BsonRead.Reader.ReadBytes: a negative size is an error here; the code does not test for it and would move its cursor back.
- BsonRead.Decode: for bytes that are no encoding of a document only termination and staying inside the data are shown; negative lengths are errors here.
- BsonIndex.MakeIndex: documents below 2^26 bytes with distinct keys, since the offset shares an int with the type; the types left out above do not occur in them.
- StrBuf.Buffer.Resize: growth by doubling, the only one in use; linear growth rounds the current size and not the required one. Texts below 2^31 bytes.
- JsonEncode.AppendData: values are null, booleans, strings, integers below 10^14, non-empty arrays without holes, and objects with string keys; numbers that are no integers, sparse arrays and the modes for invalid numbers are left out.
- JsonEncode.AppendObject: numeric keys, which come back as strings, are left out.
- JsonEncode.Encode: the same values as AppendData.
- JsonNumber.IntegerText: the connection to AppendData is the common function for the text of an integer, not a call.
- JsonDecode.Decode: numbers other than such integers are read by a parameter that stands for the C library.
- Threads.EveryRunIsSafe: creating and joining a thread succeed, and the threads are a transition system over values, not objects; the Lua states and what runs in them are not modelled.
- Md5.Md5: the 64 operations of the digest step are a parameter.
- Cipher.CryptThenDecrypt: the hash is a parameter; nothing is said about secrecy.
- The Lua stack, registry, metatables and garbage collector; errors are outcomes.
- Bindings to engines that are not in this repository (regular expressions, event loops, compression, graphics, files), `lbitlib`, `lutf8lib`, string formatting and locales.
