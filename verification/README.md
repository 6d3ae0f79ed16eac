# Verified models of the R4OS NVIDIA driver adapters

A Dafny model of the C code that lets the RM and NVKMS sources run on R4OS: the bounded formatter and
the log adapters built on it, the CPU memory routines, the bit-field and mask helpers of `nvmisc.h`, the
semaphore adapters with the probe that drives them, and the 128b/132b link-rate conversions. Each fast or
in-place routine is proved against a plain definition of what it computes, for all inputs.

| file | content |
|---|---|
| `FormatSpec.dfy` | what a format and its arguments mean: parsing into directives, the rendering of section 7.21.6.1 of ISO/IEC 9899:2011, and the outcomes Undefined, Rejected and Rendered |
| `FormatSyntax.dfy` | directives spelled out and parsed back |
| `Formatter.dfy` | the one-pass formatter over a mutable output record, proved to realise that meaning |
| `FormatFields.dfy` | the clauses of the standard on the characters of a field, met by exactly one text |
| `FormatTheory.dfy` | exactly when a call fails; measuring first and formatting then |
| `FormatReadback.dfy` | printed numbers read back |
| `Log.dfy` | log records: complete, cut and marked, or the error text |
| `Memory.dfy` | copy, move, set, compare, string copy over one byte array |
| `Powers.dfy`, `BitOps.dfy` | powers of two, And, Or and shifts on naturals, bit by bit |
| `Fields.dfy` | DRF and FLD fields, in one register and across words |
| `Masks.dfy`, `Rounding.dfy` | population count, rank and select, rounding to powers of two |
| `Semaphores.dfy`, `Probe.dfy` | adapters and probe under every interleaving |
| `LinkRate.dfy` | the rate conversions and when they undo each other |

How the model reads the source:

- A C string is the sequence of bytes that may be read from its pointer; bytes are `char` values. Variable
  arguments are a sequence of typed values (LP64: int is 32 bits; long, size_t, ptrdiff_t, intmax_t and
  pointers are 64). A call is Undefined when an argument is missing or of the wrong type, or when a string
  would have to be read past its readable bytes; the formatter requires only that this is not so. String
  arguments do not alias the output buffer.
- Width, precision and counters are unbounded numbers in the model; the contracts keep them within INT_MAX
  and the digit buffer within 64 bytes, so the C types never wrap. Where C does wrap (bit helpers, rate
  conversions) the modulus is written out.
- Providers (heap, log, kernel semaphores) appear by their contract: their answers are parameters.
- Findings where text and code differ, the code being followed: `displayport2x.h:48` writes 1000000 where
  the macro has 10000000; `nvNextPow2_U32` admits 0 in its comment but then yields 0; the comment of
  `nvGetNthSetBitIndex32` says -1 for fewer than n set bits, the code also returns it for exactly n.
- Findings where a promise needs a condition, proved as an equivalence: the fault callback's store stays
  unreached only if the waiter is enrolled at its call; cleanup's free is safe only if all users are through;
  a mutex excludes only if holders alone release it; the forward copy and the string copy tolerate only some
  overlaps; the rate conversions undo each other only below the first wrap.

## Model

| member | source | states |
|---|---|---|
| `Formatter.Vformat` | src/rm/format.h:78-211 | for every format, argument list and capacity: the result is the length of the unbounded rendering, the buffer holds its longest prefix that fits plus NUL and nothing beyond changes; any rejection gives -1 and an empty string; neither result depends on the capacity; loop iterations are bounded by capacity, scan limit and format length, whatever width and precision ask |
| `Formatter.Interpret` | src/rm/format.h:89-207 | the one-pass loop with in-place state produces exactly what parsing into directives and performing them in order produces |
| `Formatter.RunNext` | src/rm/format.h:89-92 | one turn of the loop (literal, `%%` or directive) leaves the meaning of the rest of the format unchanged |
| `Formatter.RunField` | src/rm/format.h:93-206 | one directive emits its rendering, charges its string bytes to the scan limit, takes its arguments, or fails |
| `Formatter.ReadDirective` | src/rm/format.h:93-133 | flags, width, precision and length are read with `*` arguments taken in order; refusals are those of the meaning; the cursor stays within the terminator |
| `Formatter.ReadWidth` | src/rm/format.h:103-110 | literal or `*` width, negative `*` turning left, INT_MIN and too large literals refused |
| `Formatter.ReadPrecision` | src/rm/format.h:111-121 | literal or `*` precision, negative `*` meaning none |
| `Formatter.ScanFlags` | src/rm/format.h:93-102 | consumes the longest run of flag characters and reports which occur |
| `Formatter.ScanDecimal` | src/rm/format.h:40-50 | fails exactly when the whole written number exceeds INT_MAX, else returns it |
| `Formatter.ScanLength` | src/rm/format.h:122-131 | the length modifier at the cursor |
| `Formatter.ScanText` | src/rm/format.h:142-150 | inspects min(length+1, precision) bytes, never past the precision, and fails exactly when that passes the scan limit |
| `Formatter.ConvertText` | src/rm/format.h:134-155 | `%s` and `%c`, null strings included, emit the padded contents |
| `Formatter.ConvertNumber` | src/rm/format.h:157-206 | integers and addresses emit the padded number of the standard, other conversions fail |
| `Formatter.ReadNumber` | src/rm/format.h:157-187 | value, radix, sign, prefix and effective precision of a conversion, with `%p` before an alphanumeric refused |
| `Formatter.FetchUnsigned` | src/rm/format.h:51-63 | the argument modulo the width of its length modifier |
| `Formatter.FetchSigned` | src/rm/format.h:64-76 | the argument as two's complement of that width |
| `Formatter.SplitSign` | src/rm/format.h:175-179 | sign character and magnitude, also of INT64_MIN |
| `Formatter.MakeDigits` | src/rm/format.h:188-193 | the 64-byte buffer holds the numeral, lowest digit first, and never overflows |
| `Formatter.DigitsOf` | src/rm/format.h:188-196 | digits and counted zeroes together are the digits that precision and alternate octal ask for |
| `Formatter.EmitDigits` | src/rm/format.h:205-205 | emits the buffer from the highest digit down |
| `Formatter.EmitNumber` | src/rm/format.h:197-206 | sign, prefix, zeroes and digits with the one padding that the flags select |
| `Formatter.EmitText` | src/rm/format.h:151-154 | a text padded left or right |
| `Formatter.Output.Repeat` | src/rm/format.h:22-30 | logically appends the run, fails past INT_MAX, stores only what fits |
| `Formatter.Output.Bytes` | src/rm/format.h:31-39 | the same for a text |
| `FormatSpec.PadNumber` | src/rm/format.h:199-206 | a number field is exactly max(width, content) long for every combination of flags |
| `FormatSpec.PadText` | src/rm/format.h:151-155 | a text field is exactly max(width, content) long; with left adjustment it starts with the contents and ends in spaces, without it starts with spaces and ends with the contents |
| `FormatSyntax.SpellingParses` | src/rm/format.h:89-187 | a list of writable directives is what its own spelling parses to if and only if no address stands directly before a letter or digit: apart from the `%p` rule the grammar is unambiguous |
| `FormatSyntax.NormalForm` | src/rm/format.h:89-187 | every format without refused directives parses like the spelling of what it parses to |
| `FormatSyntax.FieldSpelled` | src/rm/format.h:93-187 | a spelled field parses to itself and ends right behind its text, whatever follows (after an address: no letter or digit) |
| `FormatSyntax.Parsed` | src/rm/format.h:89-187 | in every parsed format addresses are spaced, and every directive that is not refused is writable, with literals within INT_MAX |
| `FormatSyntax.KindExactly` | src/rm/format.h:133-187 | a conversion is supported if and only if its letter is one of `diuoxXpsc`, without length modifier for `p`, `s` and `c`, and with no ASCII letter or digit behind `p` |
| `FormatFields.StepExactly` | src/rm/format.h:93-206 | for every directive and argument list: the arguments taken, the string bytes inspected and the emitted text meet the clauses of the standard (two's complement arguments, adjustment side, width, least number of digits, letter case, sign, prefix, no idle zero, contents up to terminator or precision), and no other step meets them |
| `FormatFields.NumberFieldUnique` | src/rm/format.h:188-206 | at most one text meets the clauses of a number field |
| `FormatFields.RenderedNumber` | src/rm/format.h:188-206 | the padded number meets them |
| `FormatFields.LayoutExactly` | src/rm/format.h:103-121 | width, adjustment and precision are those asked for: a negative `*` width turns left, INT_MIN has none, a negative `*` precision is none |
| `FormatFields.HexLetters` | src/rm/format.h:181-191 | hexadecimal fields have capitals only for `X`, small letters only for `x` and `p` |
| `FormatTheory.RunExact` | src/rm/format.h:89-207 | stepwise performance under a scan budget and an output limit succeeds exactly when every directive is acceptable and both totals fit, and then gives the concatenated renderings |
| `FormatTheory.FailsExactly` | src/rm/format.h:80-135 | a call is rejected if and only if the format is null or too long, some directive is unsupported, has a literal above INT_MAX or a `*` width of INT_MIN, format length + 1 plus inspected string bytes exceeds 65536, or the text exceeds INT_MAX |
| `FormatTheory.MeasureThenFormat` | src/rm/format.h:78-211 | measuring with capacity 0 and formatting with one byte more yields the whole text |
| `FormatReadback.NumberReadsBack` | src/rm/format.h:194-206 | no padding, precision, sign or prefix choice changes the number a field denotes |
| `FormatReadback.NumericRoundTrip` | src/rm/format.h:51-76 | for every integer directive and argument, reading the emitted field back gives a number in the signed range of its length modifier that is congruent to the argument modulo 2^bits, or for unsigned conversions the argument modulo 2^bits |
| `FormatReadback.AlternateOctal` | src/rm/format.h:194-206 | for every octal directive with `#`, whatever its flags, width and precision, the emitted field starts behind its spaces with a zero digit, and has one more digit than the field without `#` exactly where that has none |
| `Log.LogFinish` | src/rm/log.h:13-23 | the error text with everything behind it unchanged, the marker in the last 13 bytes with everything before it unchanged, or nothing, by the formatting result |
| `Log.RecordTextIs` | src/rm/log.h:13-23 | up to 511 bytes are kept whole, of more the first 499 followed by " [truncated]", and a rejected call leaves the fixed error text |
| `Log.BuildRecord` | src/rm/os_log.c:20-25 | every record is terminated within 512 bytes and is the complete text, its first 499 bytes and the marker, or the error text |
| `Log.OsLog.NvPrintf` | src/rm/os_log.c:16-30 | filtered calls submit nothing and return 0; others submit one such record with the right severity and return the provider's answer or -1 |
| `Log.OsLog.LogError` | src/rm/os_log.c:35-41 | submits one such record as an error |
| `Log.ModesetText` | src/rm/nvkms_log.c:8-10 | the modeset format means greeting, prefix and message, or rejection exactly when they are too long to scan, which also covers strings without terminator that are readable for the whole scan limit |
| `Log.NvkmsLog` | src/rm/nvkms_log.c:5-16 | for all texts p and m that the two strings say (nothing and "(null)" for null pointers) the record carries "NVIDIA modeset: " + p + m with the severity of its level, or the error text where they are too long to scan or lack a terminator |
| `Memory.Copy` | src/rm/memory.h:29-37 | eight-byte units, then bytes, each read before it is written, for any overlap |
| `Memory.CopyExactly` | src/rm/memory.h:29-37 | that copy equals the simultaneous copy for all contents if and only if the destination is not above the source, or is past its end, or the length is one word |
| `Memory.Memmove` | src/rm/nvkms_memory.c:30-42 | equals the simultaneous copy for every distance and direction of overlap, everything else unchanged |
| `Memory.Set` | src/rm/memory.h:39-48 | fills exactly the span, words of the replicated byte included |
| `Memory.PatternBytes` | src/rm/memory.h:44-44 | each byte of the replicated pattern is the value |
| `Memory.Strncpy` | src/rm/nvkms_memory.c:59-65 | in one memory, for every overlap: the string cut to the length and zero-filled, read no further than that; where the destination starts inside the bytes still to be read, the bytes in front of it over and over |
| `Memory.StringCopyExactly` | src/rm/nvkms_memory.c:59-65 | an overlapping string copy yields the cut string if and only if the destination is not inside the bytes to be read, or the string repeats itself at that distance |
| `Memory.Compare` | src/rm/memory.h:50-57 | zero if and only if equal, else the difference at the first differing byte |
| `Memory.StringCompare` | src/rm/memory.h:66-71 | zero if and only if the strings are equal, else the difference at the first differing byte, terminators included |
| `Fields.DrfValMwReads` | ThirdParty/Nvidia570.144/src/common/sdk/nvidia/inc/nvmisc.h:359-385 | for any word array and any field of 1 to 32 bits, inside a word or spanning two, the value is the array's number divided by 2^lo modulo 2^width |
| `Fields.WrittenRegister` | ThirdParty/Nvidia570.144/src/common/sdk/nvidia/inc/nvmisc.h:306-320 | a written register is the old bits below, the cut value, the old bits above |
| `Fields.FieldRoundTrip` | ThirdParty/Nvidia570.144/src/common/sdk/nvidia/inc/nvmisc.h:244-320 | reading a written field gives the value cut to it, and every disjoint field is unchanged |
| `Masks.PopCount32Counts` | ThirdParty/Nvidia570.144/src/common/sdk/nvidia/inc/nvmisc.h:530-538 | the lane-parallel count is the number of set bits |
| `Masks.PopCount64Counts` | ThirdParty/Nvidia570.144/src/common/sdk/nvidia/inc/nvmisc.h:543-552 | the same for 64 bits |
| `Masks.PairCounts` | ThirdParty/Nvidia570.144/src/common/sdk/nvidia/inc/nvmisc.h:534-534 | the first step leaves the count of every pair, without borrow |
| `Masks.MaskThenAdd` | ThirdParty/Nvidia570.144/src/common/sdk/nvidia/inc/nvmisc.h:535-535 | the second step adds neighbouring lanes |
| `Masks.AddThenMask` | ThirdParty/Nvidia570.144/src/common/sdk/nvidia/inc/nvmisc.h:536-536 | the third step adds before masking and no lane overflows into its neighbour |
| `Masks.MaskPosIsRank` | ThirdParty/Nvidia570.144/src/common/sdk/nvidia/inc/nvmisc.h:565-569 | the mask position is the number of set bits below |
| `Masks.GetNthSetBitIndex32` | ThirdParty/Nvidia570.144/src/common/sdk/nvidia/inc/nvmisc.h:691-736 | the loop over the shrinking mask finds the n-th set bit or -1 |
| `Masks.RankSelectInverse` | ThirdParty/Nvidia570.144/src/common/sdk/nvidia/inc/nvmisc.h:565-736 | rank and select undo each other on every mask, and select is -1 exactly from the population count on |
| `Rounding.PrevPow2U32Rounds` | ThirdParty/Nvidia570.144/src/common/sdk/nvidia/inc/nvmisc.h:628-638 | the greatest power of two not above x, for every positive x; 0 for 0 |
| `Rounding.PrevPow2U64Rounds` | ThirdParty/Nvidia570.144/src/common/sdk/nvidia/inc/nvmisc.h:640-651 | the same for 64 bits |
| `Rounding.NextPow2U32Rounds` | ThirdParty/Nvidia570.144/src/common/sdk/nvidia/inc/nvmisc.h:613-625 | the least power of two not below x for x in 1..2^31, and 0 for every other x |
| `Rounding.RoundingsAgree` | ThirdParty/Nvidia570.144/src/common/sdk/nvidia/inc/nvmisc.h:613-638 | on every 32-bit word both roundings agree exactly on the powers of two and on 0 |
| `Semaphores.AllocMutex` | src/rm/os_semaphore.c:25-30 | one permit, or the error for a missing place or memory |
| `Semaphores.Adapter` | src/rm/os_semaphore.c:7-73 | a status adapter reports success, retry, bad request and bad state exactly for the provider's answers 0, 1, 2 and others, and a bad request where the context kept it away; the others return or fault with their operation number; a permit moves exactly when the caller sees success |
| `Semaphores.AcquireSemaphore` | src/rm/os_semaphore.c:45-49 | refused without reaching the provider in a context that may not sleep |
| `Semaphores.CondAcquireSemaphore` | src/rm/os_semaphore.c:54-57 | the conditional acquire, in any context |
| `Semaphores.TryTwice` | src/rm/semaphore_probe.c:13-14 | of two conditional acquires of a free mutex the first succeeds and the second reports retry |
| `Semaphores.ProbeHealthy` | src/rm/semaphore_probe.c:7-40 | under a provider that grants what it has, every check of the self-test holds exactly in a sleepable context outside interrupts |
| `Semaphores.Up` | src/rm/nvkms_semaphore.c:22-27 | a refused release never returns |
| `Semaphores.SemaFree` | src/rm/nvkms_semaphore.c:10-15 | a refused free never returns and leaves the object live |
| `Semaphores.Play` | src/rm/os_semaphore.c:45-73 | the adapters themselves, called in any enabled order on one object, show the outcomes of the run and leave the initial permits plus successful releases minus successful acquires |
| `Semaphores.PermitsConserved` | src/rm/semaphore.h:13-21 | over every interleaving the count is the initial one plus successful releases minus successful acquires, as callers saw them |
| `Semaphores.ExclusiveExactly` | src/rm/os_semaphore.c:50-73 | a mutex is at every moment free or held by exactly one task if and only if every successful release is made by a holder |
| `Semaphores.MutualExclusion` | src/rm/os_semaphore.c:25-73 | under that discipline two holders are the same task and no permit is free |
| `Semaphores.UndisciplinedFails` | src/rm/os_semaphore.c:68-73 | a run with a release by a non-holder in which two tasks hold the mutex |
| `Probe.ProbeSafe` | src/rm/semaphore_probe.c:41-82 | in every scheduled interleaving the store after the refused free is not reached, the semaphore is live exactly until cleanup's free is accepted, the memory is freed only after cleanup has retired and no semaphore is left, and the waiter passes only with a permit really released |
| `Probe.NoUseAfterFree` | src/rm/semaphore_probe.c:50-82 | no scheduled step uses a semaphore or a memory block that is gone |
| `Probe.FreesOnlyIntact` | src/rm/semaphore_probe.c:73-81 | in every interleaving cleanup calls the provider only after it has found the memory intact |
| `Probe.FaultGuardExactly` | src/rm/semaphore_probe.c:57-65 | when the fault callback calls the provider, its store is out of reach for every answer and in every continuation, scheduled or not, if and only if the waiter is enrolled at that moment |
| `Probe.FaultGuardReached` | src/rm/semaphore_probe.c:57-65 | the same at every state that any interleaving from setup leads to |
| `Probe.QuiesceExactly` | src/rm/semaphore.h:16-17 | after cleanup's accepted free no continuation uses the semaphore again if and only if waiter, fault callback and permit callback have all made their calls |
| `Probe.WaitMayOvertake` | src/rm/semaphore_probe.c:50-72 | the waiter may pass before the sent permit is recorded |
| `Probe.UnscheduledFails` | src/native_probe.zig:102-110 | without waiting for enrolment the free can succeed before a waiter comes |
| `LinkRate.LeastCarrier` | src/dsc/Original/src/common/inc/displayport/displayport2x.h:52-53 | while nothing wraps, the link rate for a data rate is the least one that carries it |
| `LinkRate.RoundTripExactly` | src/dsc/Original/src/common/inc/displayport/displayport2x.h:52-53 | converting to a data rate and back returns the link rate if and only if it is at most 461168601841, beyond which 64-bit products wrap |

## Left out

- GSP transport, rings, sequencing and recovery in the Zig sources, and the host tools under `Tools/`.
- Heap, clock and wait adapters, `os_format.c`, `nvkms_format.c`, `out_string`: thin wrappers that would add only easy members.
- The DSC picture parameter set code, register tables and status headers.
- The remaining `nvmisc.h` macros (64-bit, indexed and byte-stream fields, bit index tables, alignment).
- Timeouts and time: a blocking acquire is a step that is enabled only with a permit or a refusal.
- The probe is modelled on values, one step per provider call or atomic store, not as a class; of its 97-byte memory only whether it is allocated is represented, the comparison in cleanup may turn out either way.
- In `ProbeHealthy`, a shortage of memory for the self-test's own objects.
- Alignment, SIMD state and the direction flag of the copy instructions.
- Overlap of a `%s` argument with the output buffer, which C leaves undefined.
- The recovery path of the owner after a failed cleanup (`shutdown` in `src/native_probe.zig`).
