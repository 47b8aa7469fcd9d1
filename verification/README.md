# Obfuscator-LLVM passes, modelled in Dafny

This project models three LLVM IR passes of the obfuscator-llvm fork:

- **String encryption** (`StringEncryption::runOnModule`). It runs four phases in order:
  1. It selects every constant, locally linked global that holds i8 string data.
  2. It gives each one a ciphertext twin. The twin's bytes are XOR-ed with `0x88` and its name is `.ollvmstr<k>`, taken from a counter. Every use of the original is redirected to the twin.
  3. Before every call, each argument that is a constant GEP into a twin gets code that decrypts the twin into a fresh stack buffer. The buffer is passed instead of the argument.
  4. The originals are erased.
- **Add/sub substitution** (`AddObfuscation::runOnFunction`). Every `add b, c` becomes `sub b, (0 - c)` and every `sub b, c` becomes `add b, (0 - c)`. The walk runs `max(1, ObfTimes)` times. The pass reports that nothing changed.
- **Opcode histogram** (`CountInstruction::runOnFunction`). It counts the instructions of a function by opcode name, reports the counts, and clears the map.

## How the IR is represented

- A function body is one flat list of instructions: its basic blocks in layout order. All three passes walk blocks, then instructions, in order, and insert code only before the current instruction. Block boundaries therefore never affect a decision.
- Instruction results have numeric handles (`ValueId`).
- An `Other` instruction never carries the name of a modelled opcode (`IR.OtherIsUnmodelled`): a call is always a `Call` and an add always a `BinOp`.
- Globals live in an append-only list (`Module.globals`), with an `erased` set. A global's handle is its index. The module's global list is the live handles in index order. `new GlobalVariable(M, …)` appends to it.
- Constants (`Const`) are kept apart from instruction operands. Replacing a global's uses rewrites constant expressions (`RenameFunctions`). Replacing an instruction's uses rewrites only operands (`SubstBody`).
- `Interp` is a small interpreter for `alloca`, `getelementptr`, `load`, `xor` and `store` over byte memory. It gives the emitted decryption code a meaning.
- `AddObfuscation.Exec` runs the `add`/`sub` instructions of a body over `iW`, with poison. It steps over every other instruction, such as the closing `ret`, without giving it a value. It gives the add/sub rewrite a meaning.

### Where the model differs from the usual description of these passes

The model follows the code in each of these cases:

- Only call arguments are rewritten by string encryption. `handleGEP` would rewrite GEP instructions, but nothing calls it.
- Each add/sub iteration doubles the number of add/sub instructions, because the negation `0 - c` is itself a `sub`.
- `runOnModule` always returns `true`.
- `isString() || isCString()` accepts exactly the i8 `ConstantDataArray` initializers, because every C string is a string. An i8 vector (`<N x i8>`) is rejected by both tests, since `isString()` asks for an array type; the model represents it as `OtherConstant`.
- A second run of string encryption selects the twins again, and encrypts them again.

### Variants

Three places in the source behave differently from what the authors evidently meant (see Findings). For each, the model has a switch. One setting models the code as written. The other is the corrected behaviour, and the main theorems are proved about it:

- `AddObfuscation.FlagRule`: `CopyFlags` as written, `DropFlags` corrected.
- `StringEncryption.Variant`: `AsWritten` as written, `Corrected` corrected. `Corrected` both finds twins by handle and keeps the GEP offset.

## Model

| member | source | states |
|---|---|---|
| Cipher.Encrypt | llvm/lib/Transforms/Obfuscation/StringEncryption.cpp:181-188 | the result has the input's length, and byte i is `src[i] ^ 0x88` |
| Cipher.EncryptInvolution | llvm/lib/Transforms/Obfuscation/StringEncryption.cpp:181-188 | encrypting twice gives back the input |
| Cipher.DecryptEncrypt | llvm/lib/Transforms/Obfuscation/StringEncryption.cpp:181-188 | the byte-wise decryption the emitted code performs recovers the plaintext from `encrypt`'s output |
| Cipher.EncryptDecrypt | llvm/lib/Transforms/Obfuscation/StringEncryption.cpp:181-188 | encrypting a decrypted buffer gives back the ciphertext |
| StringEncryption.SelectCandidates | llvm/lib/Transforms/Obfuscation/StringEncryption.cpp:45-69 | a global is selected iff it is live and has private, internal, link-once-any or link-once-ODR linkage, an initializer, is constant and holds i8 data; the selection is in module order |
| StringEncryption.UniqueName | llvm/lib/Transforms/Obfuscation/StringEncryption.cpp:86-92 | a new global receives the requested name when it is free, otherwise a suffixed name; either way the name is not taken |
| Decimal.NatToString | llvm/lib/Transforms/Obfuscation/StringEncryption.cpp:83-84 | the counter prints as a non-empty string of decimal digits with no leading zero; it starts with `0` iff the counter is 0 |
| Decimal.PrintedIsCanonical | llvm/lib/Transforms/Obfuscation/StringEncryption.cpp:83-84 | every numeral without a leading zero that reads as k is the printed k, so the name `.ollvmstr<k>` is fixed character by character |
| Decimal.ParsePrinted | llvm/lib/Transforms/Obfuscation/StringEncryption.cpp:83-84 | reading the printed counter back gives the counter |
| Decimal.PrefixedInjective | llvm/lib/Transforms/Obfuscation/StringEncryption.cpp:83-84 | `prefix + k` names differ iff the counters differ |
| StringEncryption.CounterNamesDistinct | llvm/lib/Transforms/Obfuscation/StringEncryption.cpp:83-85 | distinct counter values request distinct `.ollvmstr<k>` names |
| StringEncryption.EncryptOneShape | llvm/lib/Transforms/Obfuscation/StringEncryption.cpp:74-95 | encrypting the k-th candidate appends exactly its twin, replaces the candidate's uses by the twin, enters `.ollvmstr<k>` for the twin in the name map, bumps the counter and queues the candidate for deletion; nothing else changes |
| StringEncryption.TwinsSpec | llvm/lib/Transforms/Obfuscation/StringEncryption.cpp:86-94 | the redirection sends the i-th candidate to the i-th appended global, and maps nothing else |
| StringEncryption.EncryptionInvariant | llvm/lib/Transforms/Obfuscation/StringEncryption.cpp:71-97 | the loop processes every candidate in order: bookkeeping, globals, name map and functions are as the invariant describes after all of them |
| StringEncryption.TwinGlobals | llvm/lib/Transforms/Obfuscation/StringEncryption.cpp:80-92 | each candidate gets a twin appended in candidate order; the twin keeps the linkage, is constant, holds exactly `encrypt(plaintext)` with no terminator added (same length), and is itself a candidate |
| StringEncryption.CounterNaming | llvm/lib/Transforms/Obfuscation/StringEncryption.cpp:83-93 | the counter ends at the number of candidates; the name map has exactly one entry per candidate, `.ollvmstr<i>` mapped to the i-th twin; a twin carries its requested name iff the input's symbol table does not hold it, neither as a live global's name nor as a function's |
| StringEncryption.UsesRedirected | llvm/lib/Transforms/Obfuscation/StringEncryption.cpp:94-95 | after encryption the functions are the input with every candidate replaced by its twin, no instruction uses a candidate, and the delete list is the candidates in order |
| IR.RenameFunctionsUses | llvm/lib/Transforms/Obfuscation/StringEncryption.cpp:94 | after replacing globals' uses, a global is used only if it was used and not replaced, or it is a replacement |
| IR.RenameFunctionsCompose | llvm/lib/Transforms/Obfuscation/StringEncryption.cpp:94 | replacing uses one global at a time equals replacing them all at once |
| StringEncryption.HandleArgs | llvm/lib/Transforms/Obfuscation/StringEncryption.cpp:137-162 | unmatched arguments are kept, and each matched one is replaced by a fresh value; no argument of the result matches again; the emitted code has fresh handles and no call |
| StringEncryption.HandleBody | llvm/lib/Transforms/Obfuscation/StringEncryption.cpp:103-113 | after the walk, no call argument of the function still matches a twin |
| StringEncryption.HandleFunctions | llvm/lib/Transforms/Obfuscation/StringEncryption.cpp:99-116 | every function is walked; names and count are kept, and no call argument still matches a twin |
| StringEncryption.CallsOnlyRewritten | llvm/lib/Transforms/Obfuscation/StringEncryption.cpp:99-116 | only calls are touched: every input instruction survives in order, non-calls exactly as encryption left them, calls with only their matched arguments replaced by new values |
| StringEncryption.HandleFunctionsUses | llvm/lib/Transforms/Obfuscation/StringEncryption.cpp:137-162 | call-site decryption adds uses of twins only |
| StringEncryption.EraseInstructions | llvm/lib/Transforms/Obfuscation/StringEncryption.cpp:172-177 | the instructions kept are exactly those whose handle is not queued |
| StringEncryption.DeletionKeeps | llvm/lib/Transforms/Obfuscation/StringEncryption.cpp:164-178 | with an empty instruction list, deletion erases exactly the queued globals and changes nothing else |
| StringEncryption.PassResult | llvm/lib/Transforms/Obfuscation/StringEncryption.cpp:35-43 | the pass erases exactly the candidates, leaves the instruction-deletion list empty, keeps the module well formed (no use of an erased global), and returns true |
| StringEncryption.FinalUses | llvm/lib/Transforms/Obfuscation/StringEncryption.cpp:35-43 | after the pass, functions use only live non-candidate input globals and twins |
| StringEncryption.SecondRunReselects | llvm/lib/Transforms/Obfuscation/StringEncryption.cpp:49-64 | every twin is selected again by a second run |
| Decryption.EmitDecrypt | llvm/lib/Transforms/Obfuscation/StringEncryption.cpp:190-227 | one alloca of `len` bytes, then exactly five instructions per index in ascending order (dst GEP, src GEP, load, xor 0x88, store), with handles in order; the alloca is returned |
| Decryption.EmitBytes | llvm/lib/Transforms/Obfuscation/StringEncryption.cpp:197-224 | the byte loop has five instructions per index, block j at offset 5j |
| Decryption.EmittedOperands | llvm/lib/Transforms/Obfuscation/StringEncryption.cpp:190-227 | the emitted code calls nothing and names a global only through the data operand |
| Decryption.DecryptFillsBuffer | llvm/lib/Transforms/Obfuscation/StringEncryption.cpp:190-227 | run where the data points at `len` readable bytes, the code succeeds, leaves the decrypted bytes in a new buffer whose address it returns, and changes no other object or earlier value |
| StringEncryption.DecryptArgAsWritten | llvm/lib/Transforms/Obfuscation/StringEncryption.cpp:155-160 | as written, a matched argument is replaced by a pointer to the whole decrypted twin |
| StringEncryption.DecryptArgCorrected | llvm/lib/Transforms/Obfuscation/StringEncryption.cpp:155-160 | corrected, the replacement points to what the original argument would show if the twin held its plaintext |
| StringEncryption.HandleArgsSemantics | llvm/lib/Transforms/Obfuscation/StringEncryption.cpp:137-162 | the code emitted for a call runs, changes only its own new buffers, and through each replaced argument the callee sees the expected bytes; unmatched constant arguments show what they showed before |
| StringEncryption.PlainViewMatchesOriginal | llvm/lib/Transforms/Obfuscation/StringEncryption.cpp:80-95 | in the plain view, a constant GEP into a twin shows what the same GEP into the original candidate showed |
| StringEncryption.AsWrittenDropsOffset | llvm/lib/Transforms/Obfuscation/StringEncryption.cpp:155-160 | for an argument `off > 0` bytes into a string, the as-written callee sees the whole plaintext and the corrected one sees `plain[off..]`; the two differ |
| StringEncryption.NameClashMissesTwin | llvm/lib/Transforms/Obfuscation/StringEncryption.cpp:153-155 | when a live global or a function of the input already has the name `.ollvmstr<i>`, a GEP into the i-th twin is not matched; when the owner is a global, a GEP into it is matched to the twin |
| StringEncryption.ClashExample | llvm/lib/Transforms/Obfuscation/StringEncryption.cpp:83-95 | a concrete module with a global `.ollvmstr0` beside one string shows both effects of the clash |
| StringEncryption.FunctionClashExample | llvm/lib/Transforms/Obfuscation/StringEncryption.cpp:83-95 | a concrete module with a function `.ollvmstr0` beside the string "hi": the twin is renamed and the name lookup misses it |
| StringEncryption.AsWrittenFindsUnclashedTwin | llvm/lib/Transforms/Obfuscation/StringEncryption.cpp:153-158 | when no live global and no function of the input has the name `.ollvmstr<i>`, the name lookup finds the i-th twin |
| StringEncryption.CorrectedFindsEveryTwin | llvm/lib/Transforms/Obfuscation/StringEncryption.cpp:153-158 | the lookup by handle finds every twin, and never takes an input global for one |
| WordArith.Wrap | llvm/lib/Transforms/Obfuscation/AddObfuscation.cpp:57-60 | reduction to a w-bit pattern lands in `[0, 2^w)` and fixes patterns |
| WordArith.SubNegIsAdd | llvm/lib/Transforms/Obfuscation/AddObfuscation.cpp:57-60 | `b - (0 - c) == b + c` modulo 2^w |
| WordArith.AddNegIsSub | llvm/lib/Transforms/Obfuscation/AddObfuscation.cpp:76 | `b + (0 - c) == b - c` modulo 2^w |
| WordArith.SignedNeg | llvm/lib/Transforms/Obfuscation/AddObfuscation.cpp:64 | negation negates the signed reading, except at INT_MIN, which is its own negation |
| WordArith.AddRewriteRefines | llvm/lib/Transforms/Obfuscation/AddObfuscation.cpp:61-70 | without flags, the rewritten `add` is never poison and equals the original wherever that is defined |
| WordArith.SubRewriteRefines | llvm/lib/Transforms/Obfuscation/AddObfuscation.cpp:77-86 | the same for the rewritten `sub` |
| WordArith.AddRewriteCopiedNsw | llvm/lib/Transforms/Obfuscation/AddObfuscation.cpp:68 | copying `nsw` alone is exact when `c` is not INT_MIN |
| WordArith.SubRewriteCopiedNsw | llvm/lib/Transforms/Obfuscation/AddObfuscation.cpp:84 | the same for `sub` |
| WordArith.AddRewriteCopiedNuw | llvm/lib/Transforms/Obfuscation/AddObfuscation.cpp:69 | with a copied `nuw` and `c != 0`, the rewrite is poison exactly where the original `add nuw` is defined |
| WordArith.SubRewriteCopiedNuw | llvm/lib/Transforms/Obfuscation/AddObfuscation.cpp:85 | the same for `sub nuw` |
| WordArith.AddRewriteCopiedNswAtMin | llvm/lib/Transforms/Obfuscation/AddObfuscation.cpp:68 | `add nsw b, INT_MIN` with `b >= 0` is defined; its rewrite with the copied flag is poison |
| WordArith.SubRewriteCopiedNswAtMin | llvm/lib/Transforms/Obfuscation/AddObfuscation.cpp:84 | `sub nsw b, INT_MIN` with `b < 0` is defined; its rewrite is poison |
| WordArith.CopiedNuwExample | llvm/lib/Transforms/Obfuscation/AddObfuscation.cpp:69 | on i8, `add nuw 1, 1` is 2 while `sub nuw 1, 255` is poison |
| AddObfuscation.Erase | llvm/lib/Transforms/Obfuscation/AddObfuscation.cpp:48-51 | an instruction is kept iff its handle is not queued |
| AddObfuscation.IterationIsReference | llvm/lib/Transforms/Obfuscation/AddObfuscation.cpp:26-51 | the walk with redirection on the spot and erasure afterwards equals expanding every add/sub present at the start into its pair once, then redirecting all uses at once |
| AddObfuscation.IterationKinds | llvm/lib/Transforms/Obfuscation/AddObfuscation.cpp:29-44 | one iteration doubles the add/sub count and adds one instruction per add/sub; every other instruction stays, in order, with only its operands redirected |
| AddObfuscation.IterationPair | llvm/lib/Transforms/Obfuscation/AddObfuscation.cpp:61-90 | each add/sub leaves its pair in the output: the negation of its second operand, then the flipped operation on its first, at the handle its uses now point to |
| AddObfuscation.ReplacementFlags | llvm/lib/Transforms/Obfuscation/AddObfuscation.cpp:64-69 | as written, the flipped operation has exactly the original's `nsw`/`nuw` in all four combinations; corrected, neither; the negation never has flags |
| AddObfuscation.ProducerFlips | llvm/lib/Transforms/Obfuscation/AddObfuscation.cpp:61-90 | the instruction producing an add/sub's value has the other opcode, the flags the rule gives it, and reads the negation |
| AddObfuscation.IterationFresh | llvm/lib/Transforms/Obfuscation/AddObfuscation.cpp:48-51 | after an iteration, handles are unique, and no erased original's handle is left |
| AddObfuscation.IterationNoDanglingUses | llvm/lib/Transforms/Obfuscation/AddObfuscation.cpp:70 | no instruction left after an iteration reads an erased original |
| AddObfuscation.RunOnFunction | llvm/lib/Transforms/Obfuscation/AddObfuscation.cpp:22-54 | the function keeps its name |
| AddObfuscation.LoopIterations | llvm/lib/Transforms/Obfuscation/AddObfuscation.cpp:24-25 | the do-while runs its body once when the option is at most 1, otherwise exactly `times` times |
| AddObfuscation.DefaultRunsOnce | llvm/lib/Transforms/Obfuscation/AddObfuscation.cpp:12-16 | with the default option the walk runs exactly once |
| AddObfuscation.RepeatKinds | llvm/lib/Transforms/Obfuscation/AddObfuscation.cpp:25-52 | after k iterations the add/sub count is multiplied by `2^k` and handles stay unique |
| AddObfuscation.ProducerParity | llvm/lib/Transforms/Obfuscation/AddObfuscation.cpp:25-52 | the opcode producing an original add/sub's value flips once per iteration |
| AddObfuscation.RunOnFunctionEffect | llvm/lib/Transforms/Obfuscation/AddObfuscation.cpp:22-54 | the pass runs `max(1, times)` iterations, multiplies the add/sub count by two per iteration, keeps handles unique, and returns false |
| AddObfuscation.IterationRefines | llvm/lib/Transforms/Obfuscation/AddObfuscation.cpp:26-51 | with the flags dropped, wherever the body runs the rewritten body runs too, and every original value is found at its redirected handle, unchanged unless it was poison |
| AddObfuscation.RepeatRefines | llvm/lib/Transforms/Obfuscation/AddObfuscation.cpp:25-52 | the same after k iterations, at the handle tracked through them |
| AddObfuscation.RunOnFunctionRefines | llvm/lib/Transforms/Obfuscation/AddObfuscation.cpp:22-54 | the corrected pass preserves every defined value of a function's add/sub instructions, whatever other instructions (a `ret`, calls, stores) sit between them |
| AddObfuscation.AddRetRefined | llvm/lib/Transforms/Obfuscation/AddObfuscation.cpp:22-54 | on `add i8 %a0, %a1; ret`, with arguments 1 and 2, the rewritten body still yields 3 at the handle the `ret` reads |
| AddObfuscation.CopiedFlagsPoison | llvm/lib/Transforms/Obfuscation/AddObfuscation.cpp:61-70 | on i8 with arguments 1 and 1, `%0 = add nuw %a, %b` yields 2; one as-written iteration turns it into `%1 = sub 0, %b` and `%2 = sub nuw %a, %1` (uses redirected to `%2`), which yields `%1 = 255` and poison at `%2` |
| CountInstruction.TallyCounts | llvm/lib/Transforms/Obfuscation/CountInstruction.cpp:20-29 | after the walk, each count is its starting value plus the number of instructions with that opcode name |
| CountInstruction.TallyKeys | llvm/lib/Transforms/Obfuscation/CountInstruction.cpp:22-27 | the walk adds exactly the opcode names that occur |
| CountInstruction.TallyTotal | llvm/lib/Transforms/Obfuscation/CountInstruction.cpp:20-29 | the walk adds one to the sum of counts per instruction |
| CountInstruction.OccurrencesPositive | llvm/lib/Transforms/Obfuscation/CountInstruction.cpp:22-27 | a name occurs iff its count is positive |
| IR.OpcodeNameOfConvention | llvm/lib/Transforms/Obfuscation/CountInstruction.cpp:22-26 | when no `Other` instruction borrows a modelled opcode's name, the name counted under `call` is a call exactly, and the names `add` and `sub` are exactly the add and sub instructions |
| CountInstruction.ReportIsHistogram | llvm/lib/Transforms/Obfuscation/CountInstruction.cpp:20-29 | from an empty map, the reported keys are exactly the occurring names, each count is its number of occurrences (at least 1), and the counts sum to the number of instructions |
| CountInstruction.RunOnFunction | llvm/lib/Transforms/Obfuscation/CountInstruction.cpp:38-39 | the map left in the pass is empty, and the pass returns false |
| CountInstruction.ReportsAreIndependent | llvm/lib/Transforms/Obfuscation/CountInstruction.cpp:38 | over a sequence of functions, each report after the first is the histogram of its own function alone, and the pass ends with an empty map |

## Left out

- ControlFlowObfuscation is not part of this model: the pass does nothing and returns false.
- Pass registration, the `create*` factories and `cl::opt` parsing are left out. `ObfTimes` is the integer parameter `times`, with the default `DefaultTimes`.
- `errs()` printing in CountInstruction and the commented-out dumps are output only. The printed histogram is the reported map.
- `handleGEP` is left out, because nothing calls it. Its only effect, the instruction-deletion list, is shown to stay empty.
- LLVM's symbol-table renaming of a clashing global is modelled as the first free `name.k` with k ≥ 1. The exact suffix scheme depends on the LLVM version and is not in the repository. The symbol table holds the names of live globals and of functions; aliases and ifuncs are not modelled.
- StringEncryption.AsWrittenFindsUnclashedTwin: relies on the renamed name keeping a dot before its number, so that a renamed twin `.ollvmstr<i>.<k>` never takes a later twin's requested name. Under a scheme that appends a bare number (as LLVM does for NVPTX targets and as some older versions did), an earlier renamed twin such as `.ollvmstr1` + `1` could take the name `.ollvmstr11` and the lookup of that later twin would miss too; that case is not modelled.
- LLVM stores all-zero data as `zeroinitializer`. This would affect a plaintext made only of `0x88` bytes and is not modelled: a twin always holds a byte array.
- Uses of a candidate inside another global's initializer are not modelled. Here, initializers are plain data that name no global, so every use is in a function.
- Types, alignment and the i8/i64 distinction are left out. Memory is byte-addressed, and indices are unbounded integers.
- StringEncryption.RunOnModule: models one run from a freshly constructed pass object. Only the constructor clears the pass object's lists, name map and counter (StringEncryption.cpp:28-34). A second `runOnModule` on the same object would start from the first run's leftovers; that is not modelled.
- StringEncryption.CounterNaming: the counter is a mathematical integer. The source's `uint64_t` cannot wrap with fewer than 2^64 strings.
- CountInstruction.TallyCounts: counts are unbounded. The source's `int` counts would overflow only past 2^31 - 1 instructions of one opcode.
- AddObfuscation.LoopIterations: the do-while is modelled over unbounded integers. In the source, `--times` with `times == INT_MIN` is undefined behaviour; it is only reachable through the command-line option.
- AddObfuscation.Exec: the value semantics gives values to `add`/`sub` instructions over one width, with arguments and integer constants, and steps over every other instruction. An `add`/`sub` operand produced by another instruction (a `load`, a `mul`, a `phi`) has no value, so the refinement lemmas (`IterationRefines`, `RepeatRefines`, `RunOnFunctionRefines`) do not cover such a function; control flow is not modelled either. The structural lemmas cover every instruction.
- The interpreter has no loads or stores of pointers, and no calls. It gives meaning to the decryption code and to what a callee sees through a pointer argument (bytes from the pointed-to offset to the end of the object).

## Findings

| source | as written | input that shows it | evidently intended | confidence | as-written member | corrected member |
|---|---|---|---|---|---|---|
| llvm/lib/Transforms/Obfuscation/AddObfuscation.cpp:68-69 | the rewritten `sub`/`add` copies the original's `nuw` and `nsw` flags | `%r = add nuw i8 1, 1` is 2; it becomes `sub nuw i8 1, 255`, which is poison. `add nsw b, INT_MIN` with `b >= 0` also becomes poison | the rewrite computes the same value, so the flags cannot be carried over (or must be recomputed) | not executed | AddObfuscation.CopiedFlagsPoison | AddObfuscation.RunOnFunctionRefines |
| llvm/lib/Transforms/Obfuscation/StringEncryption.cpp:155-159 | a constant GEP argument into a twin is replaced by the start of the decrypted buffer, whatever the GEP's indices | `puts("hello" + 2)`: the argument is a GEP with offset 2, and the callee receives "hello" instead of "llo" | the replacement points at the same offset into the decrypted buffer | not executed | StringEncryption.AsWrittenDropsOffset | StringEncryption.DecryptArgCorrected |
| llvm/lib/Transforms/Obfuscation/StringEncryption.cpp:83-93, 153-155 | the twin is found by the name it requested, `.ollvmstr<k>`, through the name map | a module with a global already named `.ollvmstr0` and one private string (`ClashModule`): the twin is renamed, so calls using it keep the ciphertext, while calls using the other global get the string's plaintext. A function named `.ollvmstr0` (`FunctionClashModule`) also makes the twin be renamed and missed | the twin is found by identity, not by name | not executed | StringEncryption.NameClashMissesTwin | StringEncryption.CorrectedFindsEveryTwin |

Without flags, the add/sub rewrite is proved to refine the original (`AddObfuscation.RunOnFunctionRefines`). With copied flags, it is exact only where no `nuw` is set and the second operand of an `nsw` operation is not INT_MIN (`WordArith.AddRewriteCopiedNsw`, `WordArith.SubRewriteCopiedNsw`).
