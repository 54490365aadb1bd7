# ExtUtils-DynaLib calling-convention backends, modelled in Dafny

ExtUtils::DynaLib lets a Perl program call a C function from a shared
library it has no XS glue for. Each Perl argument is already packed into a
string (`SvPV(ST(i))`, a byte string whose length is its only type
information). A *calling convention* backend ("pray" function) arranges
those bytes where the native calling convention expects a function's
arguments, then calls the function. In the other direction, callback
trampolines let C code call a Perl sub.

This project models the backends and the callback dispatcher:

- `Bytes`: the Perl argument stack as seen by a backend. It defines the
  arguments a backend places (`Placed`), their back-to-back concatenation,
  running totals, and Perl's `Copy`.
- `Hack30`: `hack30_pray`. It packs the arguments into 30 `int` words and
  croaks when they do not fit. It calls with 6 words when the bytes fit in
  6 words, and with 30 otherwise.
- `Sparc`: `sparc_pray`. The first six `int` words form the register area.
  The argument that crosses the end of that area is split, and the rest goes
  to a stack region whose size a pre-scan finds first.
- `Marshal` and `Alpha`: `alpha_pray`. Each argument is widened to a `long`
  according to its byte length (char, short, int, long). The first six
  words go to registers, and later ones to an overflow array.
- `Cdecl`: `cdecl_pray`, in both its block variant and its
  `CDECL_ONE_BY_ONE` variant.
- `Callback`: `cb_init` (the table of trampoline entries) and `cb_call_sub`.
  The latter decodes the signature, calls the sub, re-raises eval errors and
  coerces the return value.

Each backend is a method over local arrays. Its loops mirror the C loops,
and it is proved equal to a whole-value description of the call it makes
(`Hack30Image`, `SparcImage`, `AlphaImage`, `Concat`, `CallbackResult`). The
lemmas state what that description promises.

The native call itself is not performed. Instead a backend returns the bytes
or words it would pass. Several things outside the program's control become
parameters:

- The initial contents of an uninitialised buffer are `junk`.
- The memory that follows an argument's buffer is `after`.
- The build configuration is a set of flags: `argStart` (DYNALIB_ARGSTART),
  `fpLoads` (GCC's floating-point register loads), `subtractCurrent` and the
  `Platform` sizes.
- The Perl interpreter's services are the fields of the `Perl` datatype.

## Model

| member | source | states |
|---|---|---|
| Bytes.CopyInto | hack30.c:47-48 | `Copy` writes the source bytes at the offset and leaves every other byte of the buffer as it was |
| Bytes.CopyNext | hack30.c:43-49 | copying the next argument whole at the running total keeps the buffer "filled": the first n arguments back to back, then the original junk |
| Bytes.FirstAboveUnique | hack30.c:41-46 | only one argument can carry the running total across a bound, so the first one that does is determined by its two running totals |
| Hack30.PackArguments | hack30.c:41-50 | the packing loop either stops at an argument whose copy would cross the end of the 30 words (everything before it fitted), or copies every argument back to back and leaves the rest of `pseu` untouched |
| Hack30.Hack30Pray | hack30.c:28-61 | hack30_pray's outcome is `Hack30Image`: the croak, raised while packing the first argument that does not fit, or the call with 6 or 30 words |
| Hack30.Hack30Overflow | hack30.c:43-46 | an argument whose copy would cross the end of `pseu` is the one being packed when the code croaks |
| Hack30.Hack30Complete | hack30.c:47-60 | once every argument is copied, the call passes the buffer as filled: 6 words when the total is at most 6 ints, else 30 |
| Hack30.Hack30FailsIffOverflow | hack30.c:41-46 | the call is refused exactly when some running total exceeds 30 ints, and the croak comes while packing the first argument whose total does |
| Hack30.Hack30Layout | hack30.c:47-60 | on success, byte j of argument k is at the running total of the arguments before it plus j; bytes past the total keep their junk; the short call is used exactly when the total fits 6 ints |
| Hack30.Hack30IgnoresFirstSlot | hack30.c:41-42 | ST(0) never influences the outcome |
| Sparc.Straddler | sparc.c:18-19 | the straddling argument is the one whose running total starts below the register area's end and reaches it |
| Sparc.ReadFromAt | sparc.c:35 | byte t of the tail read is the byte at offset `from + t` of the argument, or of the memory after it |
| Sparc.PreScan | sparc.c:26-29 | the pre-scan adds the lengths of all remaining arguments to the bytes already needed |
| Sparc.CopyRest | sparc.c:38-43 | the second loop copies every remaining argument back to back after the tail, and leaves `i` at `items` |
| Sparc.FillStack | sparc.c:30-44 | the stack region holds the `ov` bytes read from offset `ov` of the straddling argument, then the remaining arguments; `i` ends at `items` |
| Sparc.PackArgument | sparc.c:16-45 | one iteration either copies the argument whole into the register area, or splits it and fills the stack region with everything after it and ends the loop |
| Sparc.FillArguments | sparc.c:15-46 | the loop ends with either every argument packed into the registers (no stack region) or the registers filled up to the straddling argument's first bytes and the stack region laid out |
| Sparc.LayoutFilled | sparc.c:15-24 | when every argument was copied whole, the registers are the concatenation then junk, and there is no stack region |
| Sparc.LayoutSpilled | sparc.c:19-44 | when an argument was split, the registers and stack region are those `Layout` describes |
| Sparc.SparcPray | sparc.c:5-50 | sparc_pray builds `SparcImage`: the register area and the stack region as the code writes them |
| Sparc.SparcRegisters | sparc.c:18-24 | the register area holds the first bytes of the concatenation, and the junk past its total |
| Sparc.SparcSpillSize | sparc.c:25-43 | the stack region is exactly as long as the bytes that did not fit, and it is empty exactly when everything fits |
| Sparc.SparcLaterArgumentsWhole | sparc.c:38-43 | past the straddling tail, the stack region continues the concatenation byte for byte |
| Sparc.SparcTailAsWritten | sparc.c:33-37 | the stack region starts with `ov` bytes read from offset `ov` of the straddling argument, where `ov` is how far it overflows the registers |
| Sparc.SparcTailMisread | sparc.c:33-36 | on a concrete input the code's stack region starts with 3, 4 where the split argument's leftover bytes 7, 8 belong |
| Sparc.ConcatAfterSplit | sparc.c:19-24 | past the register area's end, the concatenation is the rest of the straddling argument followed by the later arguments |
| Sparc.SparcIntendedReassembles | sparc.c:19-43 | with the intended tail, the registers followed by the stack region are exactly the concatenation of the arguments |
| Sparc.SparcAgreesWhenHalved | sparc.c:33-36 | the code and the intended split agree, whatever the bytes are, when nothing overflows or the straddling argument is split exactly in half |
| Sparc.ReadHalf | sparc.c:34-35 | reading `ov` bytes from offset `ov` gives the last `ov` bytes, whatever follows the argument, when the argument is `2 * ov` long |
| Sparc.SparcIgnoresFirstSlot | sparc.c:12-16 | ST(0) never influences the call |
| Marshal.Unsigned | alpha.c:33-45 | the little-endian value of n bytes is below 256^n |
| Marshal.Widen | alpha.c:31-51 | an argument is widened exactly when its length is one the switch accepts |
| Marshal.HandledIffCType | alpha.c:35-47 | under C's size ordering, the conditional cases accept exactly the lengths of char, short, int and long |
| Marshal.SignedRoundTrip | alpha.c:36-45 | truncating a sign-extended value back to its width gives its bytes back |
| Marshal.WidenRoundTrip | alpha.c:31-47 | truncating the widened word to the argument's width gives the argument back |
| Marshal.SignedBounds | alpha.c:36-45 | an n-byte signed value lies in the two's-complement range of n bytes |
| Marshal.WidenRange | alpha.c:32-46 | the widened word lies in the range of the argument's C type: the two's-complement range of its width, or 0..255 for an unsigned char |
| Marshal.WidenUnique | alpha.c:32-46 | the widened word is the only value in that range whose low bytes are the argument: the sign extension (zero extension for an unsigned char) |
| Marshal.EncodeInjective | alpha.c:36-45 | two values with the same low n bytes that are less than 256^n apart are equal |
| Marshal.WidenFitsLong | alpha.c:31-47 | every widened word fits in a signed `long` |
| Alpha.WidenAll | alpha.c:18-51 | all arguments are widened in order, or the first unsupported one is reported, with every one before it supported |
| Alpha.WidenAllPrefix | alpha.c:48-50 | an unsupported argument in a prefix is the failure of the whole list |
| Alpha.StoreWord | alpha.c:22-30 | `lptr` stores word n in register slot n while n < 6; at n == 6 it allocates the overflow array for the remaining words; after that it advances one word |
| Alpha.AlphaPray | alpha.c:6-72 | alpha_pray's outcome is `AlphaImage`: a croak for the first unsupported argument, or the call with the six register words, the overflow words and the fp registers |
| Alpha.AlphaFailsIffUnsupported | alpha.c:31-51 | the call is refused exactly when some argument's length is not that of a char, short, int or long, and the position reported is the first such |
| Alpha.AlphaPlacement | alpha.c:18-71 | argument k goes to register k when k < 6, or to overflow word k - 6; the overflow has one word per argument past the sixth; unused registers are 0; the fp registers copy the register words exactly when loaded |
| Alpha.AlphaWordsRoundTrip | alpha.c:31-47 | every placed word, truncated to its argument's width, gives the argument back, lies in the range of the argument's C type (so it is its sign or zero extension), and fits in a `long` |
| Alpha.AlphaIgnoresBelowArgStart | alpha.c:18-20 | stack entries below DYNALIB_ARGSTART never influence the outcome |
| Cdecl.TotalArgLen | cdecl.c:27-32 | the backward measuring loop sums the lengths of ST(1)..ST(items-1) |
| Cdecl.CdeclPray | cdecl.c:26-41 | the block variant's region holds the arguments back to back, first argument first, and starts `frameOverhead` bytes low when CDECL_SUBTRACT_CURRENT is set |
| Cdecl.CdeclPrayOneByOne | cdecl.c:18-25 | allocating and copying from the last argument down leaves the arguments back to back, first argument lowest |
| Cdecl.CdeclLayout | cdecl.c:18-41 | byte j of argument k is at the running total of the arguments before it plus j |
| Cdecl.CdeclIgnoresFirstSlot | cdecl.c:37-38 | ST(0) is never placed |
| Callback.CbInit | callback.c:4-21 | the table has one entry per trampoline, in order, each naming its trampoline, with no sub bound and empty argument and return types |
| Callback.CStr | callback.c:42-55 | the signature the code walks is the longest NUL-free prefix of the stored string: it stops at the first NUL or at the end |
| Callback.CStrPrefix | callback.c:55 | characters before the first NUL are all seen, and when the walk stops at a NUL or the end it has seen exactly the string up to there |
| Callback.CStrStopsAtNul | callback.c:42-55 | a NUL-free string is seen whole, and nothing after a NUL is ever seen |
| Callback.DecodeArgs | callback.c:41-70 | decoding a signature succeeds exactly when every signature character is valid for its position; it then pushes one scalar per character (`first` for the first, va_list slot k-1 for character k); otherwise it croaks for the first invalid character |
| Callback.FirstInvalidUnique | callback.c:42-68 | a signature has at most one first invalid character |
| Callback.DecodeArgsPrefix | callback.c:52-67 | an invalid character in a prefix of the signature is the croak of the whole signature |
| Callback.PushArguments | callback.c:40-71 | the pushing loop, which stops at the first NUL, pushes exactly the scalars `DecodeArgs` describes for the string up to that NUL, or stops with its croak |
| Callback.PushLater | callback.c:55-69 | the loop over the later characters, up to the first NUL, extends the first argument's scalar to exactly the scalars `DecodeArgs` describes, or stops with its croak |
| Callback.DecodeNext | callback.c:55-65 | a valid next character appends its scalar, from the next va_list slot, to the decoded prefix |
| Callback.DecodeStops | callback.c:66-67 | an invalid character after a valid prefix is the croak of the whole signature |
| Callback.ReRaise | callback.c:86-101 | an error is re-raised exactly when `$@` grew during the call |
| Callback.Coerce | callback.c:111-123 | the value is returned exactly when the return type is empty, 'i', or 'p' on a build where pointers fit in an int |
| Callback.CbCallSub | callback.c:24-128 | cb_call_sub's outcome is `CallbackResult`: signature croak, re-raised eval error, failed call, return-type croak, or the coerced value |
| Callback.BadSignatureNeverCalls | callback.c:42-70 | an invalid signature croaks for its first invalid character whatever the sub would do: the sub is not called |
| Callback.DecodeIgnoresCall | callback.c:41-70 | decoding the signature does not depend on the sub |
| Callback.CallbackPassesArguments | callback.c:41-123 | a valid signature of length L makes the sub see exactly L arguments, converted per character in order, and the outcome follows the eval, count and return-type checks in that order |
| Callback.EvalErrorWins | callback.c:73-111 | under eval, an error the sub added is re-raised whatever the return type |
| Callback.ReRaiseKeepsMessage | callback.c:90-100 | the cleanup form of the message keeps the whole error after "In callback: ", and any other re-raised message is the new `$@` verbatim |
| Callback.FreshSlotCall | callback.c:12-115 | an entry with the empty types cb_init leaves, once a sub is bound, calls that sub with no arguments and returns its value as an int |
| Callback.IntPairExample | callback.c:44-114 | with signature "ii", the sub receives `first` and the next va_list slot, in order |

## Left out

- The native call, the inline assembly and alloca's stack discipline are left out. Each backend returns the image of the call (bytes or words) instead of performing it.
- Sparc.FillStack: the `- sizeof (int)` adjustment of the stack region's start (sparc.c:32) is not modelled. The region is modelled from the start of the allocation.
- Cdecl.CdeclPray: the region is the bytes written. The memory between the moved start and the allocation is outside the model, and `origin` records the offset.
- Cdecl.CdeclPrayOneByOne: the separate allocations are modelled as adjacent, as the variant assumes. Allocation padding is not modelled.
- `int` overflow of `nbytes` and `check_len` (argument totals near 2^31) is not modelled. Totals are unbounded naturals.
- Alpha.AlphaPray: the croak message's second `%d` is given the argument's address, not its length (alpha.c:50). The model keeps only the argument position.
- Callback: the Perl stack, mortal scalars, ENTER/LEAVE and SAVETMPS are not modelled. The sub is a function of its arguments and `$@`.
- Callback.CbCallSub: a `die` outside an eval does not return through this code. It is modelled only by what `perl.call` returns.
- Callback.DecodeLater: the `(IV)` conversion of a `double` taken from the va_list is the opaque `doubleToIV`. A va_list slot is modelled as one integer.
- Callback.CbCallSub: callers must pass an index inside the table, a bound sub and enough va_list slots for the signature up to its first NUL. The C code reads past them otherwise.
- Hack30.Hack30Pray: the croak's fixed message is not modelled. `TooManyArguments` records which argument was being packed, which the message does not carry.
- Hack30.Hack30Pray: the partial copies made before a croak are not part of the outcome, because the buffer is discarded.

## Findings

| source | as written | input that shows it | evidently intended | confidence | as-written member | corrected member |
|---|---|---|---|---|---|---|
| sparc.c:33-36 | the straddling argument's tail is copied from offset `ov` (the overflow length), so `ov` bytes are read starting at `arg[ov]` | sizeof(int) = 4, ST(1) of 18 bytes, ST(2) = bytes 1..8: 6 bytes of ST(2) fit, and the stack region gets 3, 4 | the bytes that did not fit, `arg[arg_len - ov ..]` (here 7, 8), so registers followed by stack reassemble the arguments | not executed | Sparc.SparcTailMisread | Sparc.SparcIntendedReassembles |

`Sparc.SparcPray` and `Sparc.Layout` keep the code as written. The intended
split is `Sparc.LayoutIntended`, and `Sparc.SparcIntendedReassembles` proves
that it reassembles the arguments. `Sparc.SparcAgreesWhenHalved` shows that the
two agree, whatever the bytes are, when nothing overflows or the split is
exactly in half.
