# Architecture policies of a libsolv pool

This project models the architecture-policy code of libsolv's `src/poolarch.c` in Dafny and proves properties of that model.

The code covered has three parts:

- **`pool_setarch`** expands a short architecture name through the built-in `archpolicies` table. For example, `x86_64` becomes `x86_64:i686:i586:i486:i386`.
- **`pool_setarchpolicy`** compiles a policy string into the pool's `id2arch` score table and its bound `lastarch`.
- **`pool_arch2color_slow`** classifies an architecture id as architecture-independent, 32-bit or 64-bit, and caches the answer in `id2color`.

A policy string lists architecture names separated by `:`, `=` or `>`. Each name is interned to an id. The first mention of an id takes the running score, which starts at `0x10001`:

- a preceding `:` first adds `0x10000` (a new tier);
- a preceding `>` first adds 1 (a lower rank in the same tier);
- `=` or no separator adds nothing.

Some further rules:

- The noarch id always scores 1.
- A repeated mention changes nothing.
- When an id reaches `lastarch`, the table grows so that `lastarch = id + 255`. An id below `lastarch` causes no growth. The slot at `lastarch` always stays 0.

The project has six modules:

- `PolicyTokens` (`tokens.dfy`) is the tokenizer: the `strcspn` scan. Each token carries the separator that came right before it. `CString` is the part of a string that C sees, up to the first NUL.
- `PolicyScores` (`scores.dfy`) is the score accumulator as a pure function `Compile` over `(separator, id)` mentions. `ScoreOf` is a declarative description of every slot, and `CompileMeaning` proves that the two agree. The ordering, first-mention and packing properties are proved about `Compile`.
- `ArchPolicy` (`policy.dfy`) composes the tokenizer, the interner and the accumulator into `Policy`. It also has the 32-bit bound and worked examples for any names `a`, `b`, `c`, `d`.
- `ArchColors` (`colors.dfy`) is the colour rule and the unsigned range guard.
- `ArchAliases` (`aliases.dfy`) is the `archpolicies` table of the default build (the constant `ArchPolicies`, the 29 pairs of src/poolarch.c:23-66 without the `FEDORA`/`MAGEIA` lines), the lookup rule `Expand` and the lookup loop.
- `PoolArch` (`pool.dfy`) holds the `Pool` class. Its fields `noarchid`, `id2arch`, `lastarch` and `id2color` are updated in place.
  - `CompileTable` (the scan loop) and `Admit` (one loop step, which grows the array and writes a slot) work on a Dafny `array`. `Admit` is proved to perform one `Advance`, and `CompileTable` to build exactly `Policy(...).table`.
  - `Pool.Valid` is the shape invariant: the length is `lastarch + 1`, noarch is 1, the last slot is 0, and the cache is as long as the table.
  - `Pool.CacheSound` says that every cached colour is the rule's colour.

The interner is given as two parameters: `strn2id: string -> nat` stands for `pool_strn2id` and `id2str: int -> string` for `pool_id2str`. The fixed ids `ARCH_NOARCH`, `ARCH_ALL` and `ARCH_ANY` are given as a `KnownArchs` value.

## Model

| member | source | states |
|---|---|---|
| `PolicyTokens.Span` | src/poolarch.c:121 | the length of the longest prefix without `:`, `=`, `>` or NUL: every character before it is plain, and the character at it (if any) stops the scan |
| `PolicyTokens.Tokens` | src/poolarch.c:119-142 | the scan loop as a function: the run up to the next stop character yields a token when it is non-empty, a separator becomes the preceding separator of the rest, and the end of the string or a NUL ends the scan; its behaviour is stated by the lemmas below |
| `PolicyTokens.TokensOfName` | src/poolarch.c:121-124 | a string with no separator is exactly one token, preceded by the current separator |
| `PolicyTokens.TokensStep` | src/poolarch.c:121-142 | one round of the scan: the run before a separator gives at most one token, and the rest is scanned with that separator as the preceding one |
| `PolicyTokens.TokensLast` | src/poolarch.c:119-142 | a run ended by the end of the string or by NUL is the last thing scanned |
| `PolicyTokens.TokensWellFormed` | src/poolarch.c:121-124 | only non-empty runs without separators become tokens, and each token's preceding separator is `:`, `=`, `>` or the initial one |
| `PolicyTokens.TokensAfterSeparator` | src/poolarch.c:140-142 | only the separator right before a token matters: the tokens of `x c y` are those of `x`, followed by those of `y` with `c` as the preceding separator |
| `PolicyTokens.TrailingSeparator` | src/poolarch.c:140-142 | a trailing separator yields no token |
| `PolicyTokens.TokensStopAtNul` | src/poolarch.c:119-142 | the scan stops at the first NUL: nothing after it is read |
| `PolicyTokens.SeparatorsCounted` | src/poolarch.c:140-141 | no separator precedes more tokens than it occurs in the string (plus one for the initial separator) |
| `PolicyTokens.CString` | src/poolarch.c:76 | the string a C function sees: a prefix of the Dafny string that holds no NUL and is followed by a NUL whenever it is shorter |
| `PolicyTokens.TokensOfCString` | src/poolarch.c:119 | the scan reads exactly the C string: its tokens are those of the whole Dafny string |
| `PolicyScores.Inc` | src/poolarch.c:133-136 | `:` adds `0x10000`, `>` adds 1, every other separator adds 0 |
| `PolicyScores.Initial` | src/poolarch.c:110-116 | the initial table has `noarch + 256` slots, all 0 except noarch, which is 1; the score starts at `0x10001` |
| `PolicyScores.Cover` | src/poolarch.c:125-130 | growth happens only when `id >= lastarch`: it makes `id + 256` slots, keeps every old slot and zero-fills the new ones; afterwards `id < lastarch` |
| `PolicyScores.Advance` | src/poolarch.c:124-138 | one mention never shrinks the table |
| `PolicyScores.Compile` | src/poolarch.c:110-143 | the compiled table never has fewer slots than the initial one |
| `PolicyScores.CompileMeaning` | src/poolarch.c:110-143 | the accumulator's final score is `0x10001 + 0x10000*tiers + ranks`; noarch and every mentioned id lie below `lastarch`; every slot equals `ScoreOf`: 1 for noarch, the score at the id's first mention for a mentioned id, 0 otherwise |
| `PolicyScores.FirstMentionScore` | src/poolarch.c:131-137 | the id first mentioned at position k holds `0x10001 + 0x10000*tiers + ranks` counted up to and including k |
| `PolicyScores.MentionedScore` | src/poolarch.c:131-137 | the same slot value, read from the id rather than the position |
| `PolicyScores.LastSlotZero` | src/poolarch.c:111-130 | `id2arch[lastarch]` is always 0 |
| `PolicyScores.NoarchScoresOne` | src/poolarch.c:116-137 | the noarch slot holds exactly 1, even when noarch is named in the string |
| `PolicyScores.RepeatedMention` | src/poolarch.c:131-138 | first mention wins: a mention of noarch or of an id already scored changes neither the table nor the running score |
| `PolicyScores.NewMention` | src/poolarch.c:131-137 | the first mention of a new id raises the score by the separator's increment and stores it in that slot; every other slot keeps its value and grown slots are 0 |
| `PolicyScores.ScoresAboveNoarch` | src/poolarch.c:116-137 | every slot is 1 (noarch only), 0, or at least `0x10001`; a mentioned id other than noarch is at least `0x10001` |
| `PolicyScores.ScoresFollowFirstMention` | src/poolarch.c:131-137 | scores never decrease in order of first mention, and a later id scores at least its own separator's increment above an earlier one |
| `PolicyScores.EqualsSharesScore` | src/poolarch.c:131-137 | an id first mentioned right after another, with `=`, shares its score |
| `PolicyScores.PackedScore` | src/poolarch.c:133-137 | with fewer than 0xFFFF ranks, a score's upper 16 bits are 1 + its tier and its lower 16 bits are 1 + its rank |
| `PolicyScores.ScoresFit` | src/poolarch.c:133-137 | with fewer than 0xFFFF tiers and ranks, every slot fits an unsigned 32-bit int |
| `PolicyScores.CountsBySeparator` | src/poolarch.c:133-136 | tiers taken are at most the number of `:` mentions, and ranks at most the number of `>` mentions |
| `ArchPolicy.Resolve` | src/poolarch.c:124 | interning keeps the number of tokens and every token's preceding separator, and gives each token the id the interner assigns to its text |
| `ArchPolicy.Mentions` | src/poolarch.c:119-142 | the interned tokens of a whole policy string, the first preceded by nothing (`d = 0`); no contract of its own, it is `Resolve` after `Tokens` |
| `ArchPolicy.Policy` | src/poolarch.c:110-143 | the table and score compiled from a policy string: noarch lies below `lastarch` and scores 1, and the slot at `lastarch` is 0 |
| `ArchPolicy.PolicyOfCString` | src/poolarch.c:119 | a policy string and the C string it denotes compile to the same table and score |
| `ArchPolicy.PolicyFits` | src/poolarch.c:133-137 | a policy string with fewer than 0xFFFF `:` and fewer than 0xFFFF `>` characters takes fewer than 0xFFFF tiers and ranks, and every slot fits 32 bits |
| `ArchPolicy.TokensOfEqualsTierRank` | src/poolarch.c:119-142 | `a=b:c>d` gives the tokens a, b, c, d, preceded by nothing, `=`, `:` and `>` |
| `ArchPolicy.TokensOfRepeated` | src/poolarch.c:119-142 | `a:b:a` gives three tokens; a appears twice |
| `ArchPolicy.TokensOfEmptyRun` | src/poolarch.c:119-142 | `a:>b` gives two tokens, and b is preceded by `>` |
| `ArchPolicy.EqualsTierRankCounts` | src/poolarch.c:133-136 | along `a=b:c>d`, tiers go 0,0,1,1 and ranks go 0,0,0,1 |
| `ArchPolicy.EqualsTierRankScores` | src/poolarch.c:131-137 | the mentions of `a=b:c>d` score `0x10001`, `0x10001`, `0x20001`, `0x20002` |
| `ArchPolicy.ExampleEqualsTierRank` | src/poolarch.c:118-143 | compiling `a=b:c>d` (distinct ids, none of them noarch) gives a and b `0x10001`, c `0x20001` and d `0x20002` |
| `ArchPolicy.ExampleRepeatedToken` | src/poolarch.c:131-138 | compiling `a:b:a` leaves a at `0x10001` and b at `0x20001`, and the final score at `0x20001` |
| `ArchPolicy.RepeatedScores` | src/poolarch.c:131-138 | for two distinct ids other than noarch mentioned as `a:b:a`, a scores `0x10001`, b scores `0x20001` and the final score is `0x20001` |
| `ArchPolicy.TwoTierScores` | src/poolarch.c:131-137 | for two distinct ids other than noarch mentioned as `a:b`, a scores `0x10001`, b scores `0x20001` and the final score is `0x20001` |
| `ArchPolicy.ExampleEmptyRun` | src/poolarch.c:140-142 | compiling `a:>b` gives a `0x10001` and b `0x10002` |
| `ArchPolicy.EmptyRunScores` | src/poolarch.c:131-137 | for two distinct ids other than noarch mentioned as `a>b`, a scores `0x10001` and b scores `0x10002` |
| `ArchPolicy.ExampleSingleName` | src/poolarch.c:110-143 | a one-name policy gives that name `0x10001` and noarch 1 |
| `ArchColors.Contains` | src/poolarch.c:161 | `strstr(s, p) != NULL`: true exactly when p occurs at some position of s |
| `ArchColors.ArchColor` | src/poolarch.c:159-164 | the colour is ALL exactly for `ARCH_NOARCH`, `ARCH_ALL` and `ARCH_ANY`; otherwise it is 64-bit exactly when the name is `s390x` or contains `64`, and 32-bit for every other name |
| `ArchColors.ColorExamples` | src/poolarch.c:159-164 | s390x, x86_64 and ppc64p7 are 64-bit; i686, s390 and armv7hl are 32-bit; noarch is architecture-independent |
| `ArchColors.UnsignedGuard` | src/poolarch.c:154 | for 32-bit ids, the unsigned comparison `arch >= lastarch` holds exactly when arch is negative or at least lastarch |
| `ArchAliases.Expand` | src/poolarch.c:71-82 | a name no entry matches is used unchanged; otherwise the policy of the first entry whose name is exactly equal |
| `ArchAliases.LookupArchPolicy` | src/poolarch.c:73-80 | the linear scan of the pairs returns `Expand` of the name |
| `ArchAliases.ExpandX86` | src/poolarch.c:27 | `x86_64` expands to `x86_64:i686:i586:i486:i386` in the default build |
| `ArchAliases.ExpandI586` | src/poolarch.c:30 | `i586` expands to `i586:i486:i386` |
| `PoolArch.Grow` | src/poolarch.c:127-128 | realloc plus memset: a fresh array holding the old slots followed by zeros up to the new length |
| `PoolArch.Admit` | src/poolarch.c:124-138 | one token of the scan loop, growing the array or updating it in place, performs exactly one `Advance` of the compiler's state |
| `PoolArch.CompileTable` | src/poolarch.c:110-143 | the scan loop over the string builds exactly the table `Policy` describes |
| `PoolArch.Pool.Valid` | src/poolarch.c:103-145 | the shape every operation keeps: no table means `lastarch = 0`; a table has `lastarch + 1` slots, noarch below `lastarch` scoring 1, and a zero slot at `lastarch`; a cache exists only beside a table and has as many slots; it is a predicate without a contract of its own, kept by the three methods below |
| `PoolArch.Pool.SetArchPolicy` | src/poolarch.c:94-146 | a null policy leaves no table, no cache and `lastarch = 0`; otherwise both old arrays are dropped, and the new table is `Policy(arch)` with `lastarch` its last index; the noarch slot is 1, the last slot is 0, and all slots fit 32 bits |
| `PoolArch.Pool.SetArch` | src/poolarch.c:68-83 | the table is the policy of `Expand` of the C string of `arch`, and a null arch clears the policy |
| `PoolArch.Pool.Arch2ColorSlow` | src/poolarch.c:148-167 | an id that is negative or at least `lastarch` gives ALL and leaves the cache untouched (absent stays absent); otherwise the result is the colour rule, the cache is allocated with `lastarch + 1` empty slots if absent, only the id's slot changes, and cache soundness is preserved |

## Left out

- The interner's internals (`pool_strn2id`, `pool_id2str`) are not part of this model. They are the function parameters `strn2id` and `id2str`, so interning is deterministic and never fails. A run is passed as the substring rather than as a pointer and length.
- Allocation failure of `solv_calloc` and `solv_realloc2` is not modelled. Freeing is modelled as dropping the reference, and a new array is a fresh Dafny array.
- The `FEDORA`/`MAGEIA` variant of the `archpolicies` table is not modelled. The table is the default build's; `LookupArchPolicy` also accepts any table as a parameter.
- PoolArch.Pool.SetArchPolicy: requires fewer than 0xFFFF `:` and fewer than 0xFFFF `>` characters (`SeparatorsFit`), so the 32-bit wrap-around of `score` is not modelled. Scores are unbounded naturals, proved to stay below 2^32 under that bound.
- PoolArch.Pool.SetArch: carries the same bound on the expanded policy.
- PolicyScores.ScoresFit: proves every slot below 2^32, the range of the unsigned `score`. The slots of `id2arch` are `Id`, a signed 32-bit type, so a score of tier `0x8000` or above is stored as a negative number. The model keeps it as the unsigned value. Nothing in src/poolarch.c reads a slot except to compare it with 0, so the difference is not observable there.
- PoolArch.Pool.Arch2ColorSlow: ids are unbounded integers. The source's unsigned cast of a 32-bit `Id` is written as `arch < 0 || arch >= lastarch`, which `UnsignedGuard` proves equivalent for ids and `lastarch` in the 32-bit range.
- The numeric values of `ARCH_*` and `ARCHCOLOR_*` live in headers that are not part of this model. The colours are a datatype, and an unfilled cache byte is `None`; this assumes no `ARCHCOLOR_*` value is 0.
- The inline fast path `pool_arch2color`, which reads the cache, lives in a header that is not part of this model.
- How the solver uses the scores is outside `src/poolarch.c` and not modelled.
- The source frees the old arrays before parsing and stores the new ones at the end. The model stores both at the end; nothing can observe the difference.
- The scan loop of `pool_setarchpolicy` and its per-token body are separate methods (`CompileTable`, `Admit`), proved against `Compile` and `Advance`.
