# Tarsnap: include-order checker and RSA compatibility layer

This project models two small parts of Tarsnap in Dafny:

- **`IncludeOrder`** (`include_order.dfy`) models the style checker
  `tools/check_includes_alphabetical.py`.
  - A line names an included file when it starts with `#include` and holds a
    quoted or angle-bracketed name. The quoted form wins, and the first match
    is taken.
  - Consecutive such lines form a block. A block is in order when its names do
    not decrease in Python string order. A leading `sys/types.h` is set aside.
  - `handle_file` reports each block that is out of order, at the index of the
    line that ends the block.
  - The lines of a file are the model's input. The reports it would print are
    the output.
- **`RsaCompat`** (`rsa_compat.dfy`) models `lib/crypto/crypto_compat.c`.
  - It covers the size check, import of the eight RSA parameters into a key,
    export of them, and key generation. The RSA parameters are those of
    section 3.2 of RFC 8017.
  - The size check, import and export are modelled for both library
    generations the file supports. The generation is a `Mode` parameter:
    `Legacy` (before OpenSSL 1.1.0) assigns key fields directly, `Modern`
    goes through the `RSA_set0_*`/`RSA_get0_*` accessors.
  - Key generation is split at a different version (0.9.8). It is modelled
    for both of its interfaces, chosen by a `KeygenApi` parameter:
    `OneShot` (`RSA_generate_key`) or `Stepwise` (`BN_new`, `RSA_new`,
    `RSA_generate_key_ex`).
  - The key is a class whose fields the operations update.
  - BIGNUMs are handles. Every library call that can fail takes its outcome
    as an input, so the model covers every failure path.
  - Import records each `BN_free`/`BN_clear_free` it performs. The model
    proves that every argument ends up either owned by the key or freed
    exactly once. When no BIGNUM is passed twice, it follows that each
    BIGNUM is freed at most once and never while the key holds it.
  - Key generation records its library calls. The model proves that nothing
    is freed twice and nothing leaks.

`wrappers.dfy` holds the `Option` type used for Python's `None` and C's `NULL`.

Where the code and its description disagree, the model follows the code:

- The "starts line %i" that `handle_file` prints is the 0-based index of the
  line that *ends* the block, not the line where the block starts.
  `Report.line` is that index.
- `#include ""` yields the empty name. `handle_file` uses the name's truth value,
  so that line ends a block rather than extending it.
- Import's arguments are eight nullable pointers, and the code asserts how
  they must be filled. The model keeps the nullable parameters and turns
  those assertions into the precondition `Params.WellFormed`.

## Model

| member | source | states |
|---|---|---|
| IncludeOrder.IndexOf | tools/check_includes_alphabetical.py:16-19 | the first occurrence of a character at or after a position, or `None` exactly when there is none |
| IncludeOrder.FirstMatch | tools/check_includes_alphabetical.py:16-19 | `re.findall(...)[0]` for an opener/closer pattern: the returned pair is a match, no match starts further left, and `None` is returned exactly when the line has no match |
| IncludeOrder.Delimited | tools/check_includes_alphabetical.py:16-19 | `included[0][1:-1]`: a value exactly when a match exists, and the text between the delimiters never holds the closer |
| IncludeOrder.GetIncludedFilename | tools/check_includes_alphabetical.py:10-20 | a name is returned iff the line starts with `#include` and holds a quoted or an angle-bracketed name; a quoted result holds no `"`, an angle result no `>` |
| IncludeOrder.DelimitedIsLeftmost | tools/check_includes_alphabetical.py:16-19 | whatever match the regular expression finds, the leftmost one is returned |
| IncludeOrder.QuotedFormWins | tools/check_includes_alphabetical.py:15-17 | with a quoted name present, the first quoted name is returned, even if an angle-bracketed one is there too |
| IncludeOrder.AngleFormFallback | tools/check_includes_alphabetical.py:15-19 | without a quoted name, the first angle-bracketed name is returned |
| IncludeOrder.EmptyQuotedName | tools/check_includes_alphabetical.py:16-17 | `#include ""` yields the empty string, not `None` |
| IncludeOrder.StrLessEqTotal | tools/check_includes_alphabetical.py:36 | Python's string `<=` is total, so `sorted` is well defined |
| IncludeOrder.InsertAddsOne | tools/check_includes_alphabetical.py:36 | one insertion step of the sort adds exactly the inserted element, at the front or behind the old head |
| IncludeOrder.InsertKeepsOrder | tools/check_includes_alphabetical.py:36 | inserting into a non-decreasing list keeps it non-decreasing |
| IncludeOrder.SortedIsOrderedPermutation | tools/check_includes_alphabetical.py:36 | `sorted(values)` is non-decreasing and a permutation of `values` |
| IncludeOrder.SortedFixpoint | tools/check_includes_alphabetical.py:36 | `values == sorted(values)` holds iff every adjacent pair is in order |
| IncludeOrder.IsBlockCorrectOrder | tools/check_includes_alphabetical.py:23-36 | a one-name block is in order, and so is `sys/types.h` followed by any one name |
| IncludeOrder.BlockOrder | tools/check_includes_alphabetical.py:23-36 | a block is in order iff it is non-decreasing once a leading `sys/types.h` is removed; in both directions, with and without that leading entry |
| IncludeOrder.DuplicatesAllowed | tools/check_includes_alphabetical.py:36 | repeated names do not put a block out of order |
| IncludeOrder.SysTypesExemptOnlyFirst | tools/check_includes_alphabetical.py:32-36 | for every in-order block, a `sys/types.h` that is not the set-aside first entry sits between its neighbours in string order |
| IncludeOrder.SysTypesExamples | tools/check_includes_alphabetical.py:32-36 | a leading `sys/types.h` may precede `errno.h`, but `["unistd.h", "sys/types.h"]` is out of order |
| IncludeOrder.IsIncludeLine | tools/check_includes_alphabetical.py:48 | the truth test on the returned name: a line that extends a block starts with `#include` and holds a quoted or angle-bracketed name |
| IncludeOrder.LineName | tools/check_includes_alphabetical.py:48 | a line adds a non-empty name iff it is an include line, and that name is the one `get_included_filename` returns |
| IncludeOrder.LineNames | tools/check_includes_alphabetical.py:47-48 | one name (possibly empty) per line of the file |
| IncludeOrder.LineNameAt | tools/check_includes_alphabetical.py:47-48 | the name recorded for line `k` is the name of line `k` |
| IncludeOrder.LineNamesAppend | tools/check_includes_alphabetical.py:47-48 | the names of a file are the names of its first part followed by those of the rest |
| IncludeOrder.ScanLine | tools/check_includes_alphabetical.py:48-56 | one pass of the loop body takes the block and reports defined for line `i` to those defined for line `i + 1` |
| IncludeOrder.HandleFile | tools/check_includes_alphabetical.py:39-56 | the scan loop returns exactly the reports `ReportsUpTo` defines over the names of all lines |
| IncludeOrder.BlockBeforeIsMaximalRun | tools/check_includes_alphabetical.py:45-49 | the block accumulated before a line holds the names of the maximal run of name-adding lines just before it, in order |
| IncludeOrder.ReportsExactlyBadBlocks | tools/check_includes_alphabetical.py:47-56 | a report appears iff its line names no include and ends a non-empty block that is out of order, and it carries that block |
| IncludeOrder.ReportsIncreasing | tools/check_includes_alphabetical.py:47-56 | reports come in strictly increasing line order and lie inside the file |
| IncludeOrder.EmptyQuotedNameEndsBlock | tools/check_includes_alphabetical.py:48-56 | a `#include ""` line is not an include line for the scan and leaves no block behind it |
| IncludeOrder.NoCheckAfterNonInclude | tools/check_includes_alphabetical.py:50-56 | a line that follows a non-include line triggers no check |
| IncludeOrder.PendingBlockUnchecked | tools/check_includes_alphabetical.py:45-56 | a block still open at end of file is never checked: trailing lines that add names add no report |
| RsaCompat.ValidSize | lib/crypto/crypto_compat.c:49-62 | a valid key is 256 bytes, and its byte size times 8 equals the modulus length read the way the mode reads it (`BN_num_bits(rsa->n)` or `RSA_bits`) |
| RsaCompat.ValidSizeModesAgree | lib/crypto/crypto_compat.c:49-62 | both library generations accept exactly 256-byte keys with 2048-bit moduli, and refuse 2047 and 2049 bits |
| RsaCompat.RsaKey.constructor | lib/crypto/crypto_compat.c:224 | `RSA_new` gives a key with every slot empty |
| RsaCompat.RsaKey.Set0Key | lib/crypto/crypto_compat.c:105-110 | returns 1 and takes the non-null n, e, d when accepted, returns 0 and changes nothing otherwise; the other slots are unchanged |
| RsaCompat.RsaKey.Set0Factors | lib/crypto/crypto_compat.c:111-112 | the same for p and q |
| RsaCompat.RsaKey.Set0CrtParams | lib/crypto/crypto_compat.c:113-114 | the same for dmp1, dmq1, iqmp |
| RsaCompat.StagesCommitted | lib/crypto/crypto_compat.c:89-119 | all three stages commit iff the mode is Legacy, or `RSA_set0_key` is accepted and the key is public or both later calls are accepted |
| RsaCompat.Import | lib/crypto/crypto_compat.c:70-138 | status 0 iff every stage committed, else -1; the key takes exactly the owned parameters and keeps its old value elsewhere; the frees performed are those of the parameters not handed over |
| RsaCompat.Rollback | lib/crypto/crypto_compat.c:123-136 | the fall-through from `err3`, `err2` or `err1` frees exactly the non-null parameters of the uncommitted stages, in slot order, the private ones with `BN_clear_free` |
| RsaCompat.ReleaseCountOfReleases | lib/crypto/crypto_compat.c:123-133 | the rollback frees each parameter once if it is non-null and not owned, else never |
| RsaCompat.OwnershipPartition | lib/crypto/crypto_compat.c:64-68 | whatever fails, each given argument is either owned by the key or freed exactly once, never both; a null one is never freed |
| RsaCompat.ReleasesFreeGivenHandles | lib/crypto/crypto_compat.c:123-133 | every free performed by the rollback is of the BIGNUM given for its slot |
| RsaCompat.HandleCountIsSlotCount | lib/crypto/crypto_compat.c:123-133 | when no BIGNUM is passed for two slots, the frees of a BIGNUM are the frees of its slot |
| RsaCompat.NoDoubleFree | lib/crypto/crypto_compat.c:64-136 | when no BIGNUM is passed twice, import frees each BIGNUM at most once, never one the key holds, and every given one the key does not hold |
| RsaCompat.AliasedArgumentsFreedTwice | lib/crypto/crypto_compat.c:123-125 | the distinctness condition is needed: one BIGNUM passed as both n and e is freed twice when `RSA_set0_key` is refused |
| RsaCompat.ImportRollback | lib/crypto/crypto_compat.c:103-136 | Legacy frees nothing; a refused `RSA_set0_key` frees all given parameters (n, e for a public key), a refused `RSA_set0_factors` frees p, q, dmp1, dmq1, iqmp, a refused `RSA_set0_crt_params` frees dmp1, dmq1, iqmp |
| RsaCompat.Export | lib/crypto/crypto_compat.c:146-193 | returns 0; n and e are the key's, and the six private values are the key's when requested and left unwritten otherwise, in both modes |
| RsaCompat.ImportExportRoundTrip | lib/crypto/crypto_compat.c:70-193 | importing into a fresh key and exporting returns the same parameters whenever import succeeds, which it always does in Legacy mode |
| RsaCompat.GenerateKey | lib/crypto/crypto_compat.c:199-247 | a key is returned iff every library call succeeded; each generation request is for 2048 bits and exponent 65537; no double free; afterwards only the returned key is held |
| RsaCompat.GenerateKeyOneShot | lib/crypto/crypto_compat.c:204-212 | the `RSA_generate_key` branch returns a key iff generation succeeded, holding nothing on failure |
| RsaCompat.GenerateKeyStepwise | lib/crypto/crypto_compat.c:214-243 | the `BN_new`/`RSA_new`/`RSA_generate_key_ex` branch frees the exponent on every path and the key on generation failure, and returns a key iff all three calls succeeded |

## Left out

- `main` and the `__main__` block of the Python script (argument handling, usage text, exit status): these are command-line I/O.
- `style_utils.is_libarchive` is not part of this model. `main` uses it only to skip files.
- Reading the file in `handle_file`: the model takes the lines as a sequence of strings, line terminators included. The printing is modelled as the returned `Report` sequence.
- Regular expressions: the two patterns of `get_included_filename` are modelled by their meaning (leftmost opener, then the first closer after it), not by a regex engine.
- `crypto_compat_free`: it only calls library cleanup routines that depend on the library version, and has no logic of its own to model.
- The `warn0` diagnostics on generation failures: these are output only.
- The `OPENSSL_VERSION_NUMBER` and LibreSSL version arithmetic: it is reduced to the two-valued `Mode` and `KeygenApi` parameters.
- Size inputs: `RSA_size`, `RSA_bits` and `BN_num_bits` are library results, so they are inputs. The Legacy assertion that `rsa->n` is non-null is therefore not modelled.
- OpenSSL's own handling of the values a key already holds (freeing them on replacement, refusing a missing n or e) belongs to the library. Acceptance is an input.
- Replaced key values: the old values a Legacy key held before the direct assignment are not tracked. In the model they are simply replaced.
- Generated key content: the content of the generated key (its modulus, the fact that it passes the size check) is computed by the library and not modelled. The returned key object is a fresh one.
- `BN_set_word` is assumed to succeed. The code ignores its return value, so it is not an input of the model, and the request to generate a key is modelled as carrying exponent 65537. If `BN_set_word` failed, the real request would not carry that exponent.
- The non-null assertions on the key pointer and on the n/e out-pointers of export hold by construction: Dafny references are never null, and the n and e views are always returned.
- That `is_block_correct_order` does not modify its argument holds by construction: the model works on immutable sequences.
- Aliased arguments: import does not check that its eight arguments are distinct BIGNUMs. The per-BIGNUM guarantee (`NoDoubleFree`) holds only for distinct arguments; with aliased ones the code frees a BIGNUM twice (`AliasedArgumentsFreedTwice`).
