# cetlib core logic in Dafny

This project models four small pieces of cetlib, the utility library of the art framework, and proves properties about them.

- **Bit masks (`cetlib/bit_manipulation.h`).** These are the compile-time masks `bit_size`, `bit_number`, `right_bits` and `left_bits`, plus the run-time rotation `circ_lshift`. A template argument `U` is a value of the datatype `Unsigned`: one of the five standard unsigned integer types, with LP64 widths. A value of `U` is a natural number below 2^w. Bits are defined one binary digit at a time in module `Bits`. Each template is first defined for a type of w value bits (the functions whose names end in `At`), and the version for `U` applies it to w = bit_size<U>. The lemmas about the `At` functions hold for every width; those about circ_lshift hold for every power-of-two width w = 2^k, because only then does the mask w-1 keep exactly the k low bits. Template indices are `std::size_t` values, at most SIZE_MAX = 2^64-1, and `n+1` in `right_bits` wraps to 0 at SIZE_MAX as it does in the code. Each mask is characterised bit by bit.
- **SQLite helpers (`cetlib/sqlite/helpers.cc`).**
  - `normalize` collapses whitespace runs and drops spaces after commas.
  - `hasTableWithSchema` decides its result from the rows its query returned. The rows are a parameter.
  - `detail::assembleURI` builds the `file:…?nolock=1` URI for a filename.
- **Ntuple exception (`cetlib/Ntuple/Exception.cc`).** `ExceptionDetail::translate` maps each error category to its name. Any other value raises a LogicError.
- **Plugin factory (`cetlib/PluginFactory.cc`).** `PluginFactory::releaseVersion_` picks the release string by precedence.

An outcome that raises an exception is `Failure(code)` of `Errors.Result`. That covers `cet::sqlite::Exception` in the sqlite helpers and `::sqlite::Exception` in `translate`. It carries only the category (`Errors.ErrorCode`). Undefined behaviour is `None` of `Wrappers.Option`.

## Model

| member | source | states |
|---|---|---|
| BitManipulation.BitSize | cetlib/bit_manipulation.h:23-27 | numeric_limits<U>::digits under LP64: 8, 16, 32, 64, 64 for char, short, int, long, long long; the contract bounds it to 8..64 |
| BitManipulation.BitSizePow2 | cetlib/bit_manipulation.h:23-27 | bit_size<U>, the number of value bits of U, is a power of two 2^Log2BitSize(U) |
| BitManipulation.AllOnesBits | cetlib/bit_manipulation.h:98-102 | U(-1) is a value of U with exactly its w bits set |
| BitManipulation.BitNumber | cetlib/bit_manipulation.h:35-50 | bit_number<U,n> is U(1u) << n for n < w and 0 otherwise, and is always a value of U |
| BitManipulation.BitNumberBits | cetlib/bit_manipulation.h:35-50 | bit_number<U,n> is a value of U whose only set bit is n when n < w; it is 0 (no bit set) when n >= w |
| BitManipulation.RightBits | cetlib/bit_manipulation.h:58-74 | the intended right_bits<U,n> is a value of U |
| BitManipulation.RightBitsBits | cetlib/bit_manipulation.h:58-74 | the intended right_bits<U,n> has exactly bits 0..n set (all w bits once n+1 >= w) |
| BitManipulation.RightBitsAsWritten | cetlib/bit_manipulation.h:58-74 | right_bits<U,n> for a size_t index n: bit_number<U,n+1> - 1 when the size_t sum n+1 is below w, else ~0u converted to U; always a value of U |
| BitManipulation.RightBitsAsWrittenBits | cetlib/bit_manipulation.h:58-74 | right_bits<U,n> as written is a value of U; it sets bits 0..n when n+1 < w, in the ~0u branch only the bits of U below 32, and no bit at all for n = SIZE_MAX, where n+1 wraps to 0 |
| BitManipulation.RightBitsAsWrittenVersusIntended | cetlib/bit_manipulation.h:58-74 | the code equals the intended mask exactly when n < SIZE_MAX and either n+1 < w or U is no wider than unsigned int |
| BitManipulation.RightBitsAsWrittenAtSizeMax | cetlib/bit_manipulation.h:60-67 | right_bits<U,SIZE_MAX> as written is 0, while the intended mask is all ones |
| BitManipulation.LeftBits | cetlib/bit_manipulation.h:82-102 | the intended left_bits<U,n>: the complement of the intended right_bits<U,w-n> for n <= w, U(-1) for n > w; a value of U |
| BitManipulation.LeftBitsBits | cetlib/bit_manipulation.h:82-102 | the intended left_bits<U,n> (over the intended right_bits) is a value of U whose set bits are the i < w with i + n > w: the complement of right_bits<U,w-n> for n <= w, all ones for n > w |
| BitManipulation.LeftRightPartition | cetlib/bit_manipulation.h:88-96 | for n <= w, the intended left_bits<U,n> AND right_bits<U,w-n> is 0 and their OR is all ones |
| BitManipulation.LeftBitsAsWritten | cetlib/bit_manipulation.h:82-102 | left_bits<U,n> as the code computes it: ~ of the as-written right_bits<U,w-n> for n <= w, U(-1) for n > w; a value of U |
| BitManipulation.LeftBitsAsWrittenBits | cetlib/bit_manipulation.h:88-102 | left_bits<U,n> as written is a value of U whose set bits are the i < w with i + n > w, plus every bit from 32 up when n <= 1 (inherited from ~0u) |
| BitManipulation.LeftRightPartitionAsWritten | cetlib/bit_manipulation.h:88-96 | for every U and n <= w, the code's own left_bits<U,n> and right_bits<U,w-n> AND to 0 and OR to all ones |
| BitManipulation.LeftBitsAsWrittenVersusIntended | cetlib/bit_manipulation.h:92-95 | the code's left_bits equals the intended one exactly when n > 1 or U is no wider than unsigned int |
| Bits.ComplementPartition | cetlib/bit_manipulation.h:95 | a w-bit value and its complement ~ share no bit and together set all w bits |
| BitManipulation.CircLShiftReduced | cetlib/bit_manipulation.h:117-121 | the return expression for a count m < w, with X promoted to int when U is narrower; undefined exactly when m == 0 on a type at least as wide as int, otherwise a value of U |
| BitManipulation.CircLShift | cetlib/bit_manipulation.h:110-122 | circ_lshift reduces n modulo w first; it is undefined exactly when n % w == 0 on a type at least as wide as int, because it then shifts by w, and otherwise returns a value of U |
| BitManipulation.CircLShiftDependsOnResidue | cetlib/bit_manipulation.h:119 | circ_lshift depends only on n % w |
| BitManipulation.CircLShiftReducedBits | cetlib/bit_manipulation.h:117-121 | after n %= w, bit i-m of X moves to bit i; of the m wrapped bits only the log2(w) lowest survive the mask w-1 |
| BitManipulation.RotateLeft | cetlib/bit_manipulation.h:110-122 | the intended rotation of X by n % w, a value of U |
| BitManipulation.RotateLeftReducedBits | cetlib/bit_manipulation.h:110-122 | the intended rotation by m < w stays in U and moves bit (i-m) mod w to bit i |
| BitManipulation.RotateLeftReducedInverse | cetlib/bit_manipulation.h:110-122 | rotating by m and then by the rest of the turn gives back X |
| BitManipulation.CircLShiftReducedIsRotation | cetlib/bit_manipulation.h:117-121 | where it is defined and m <= log2(w), the shift expression is the rotation |
| BitManipulation.CircLShiftIsRotationForShortWraps | cetlib/bit_manipulation.h:115-122 | circ_lshift is the rotation whenever it is defined and n % w <= log2(w) |
| BitManipulation.CircLShiftDropsWrappedBits | cetlib/bit_manipulation.h:118-121 | when n % w > log2(w), circ_lshift of the all-ones value is defined and differs from the rotation |
| SqliteHelpers.DropSpaces | cetlib/sqlite/helpers.cc:19-20 | the result is no longer than s and does not start with whitespace |
| SqliteHelpers.DropSpacesSuffix | cetlib/sqlite/helpers.cc:19-20 | the result is the suffix of s that is left after a prefix made only of whitespace |
| SqliteHelpers.CollapseWhitespace | cetlib/sqlite/helpers.cc:17-21 | regex_replace(s, `\s+`, " "): empty exactly for empty s; the first character is kept, or becomes ' ' when it is whitespace |
| SqliteHelpers.CollapseWhitespaceShorter | cetlib/sqlite/helpers.cc:17-21 | replacing each whitespace run by one space never lengthens the string |
| SqliteHelpers.CollapseWhitespaceCollapsed | cetlib/sqlite/helpers.cc:17-21 | after the first replacement, the only whitespace is ' ' and no two spaces are adjacent |
| SqliteHelpers.RemoveSpaceAfterComma | cetlib/sqlite/helpers.cc:22-26 | regex_replace(s, ", ", ","): empty exactly for empty s, and the first character is kept |
| SqliteHelpers.RemoveSpaceAfterCommaShorter | cetlib/sqlite/helpers.cc:22-26 | replacing ", " by "," never lengthens the string |
| SqliteHelpers.CollapseWhitespaceRun | cetlib/sqlite/helpers.cc:17-21 | a whitespace run of any length and kind between visible characters becomes exactly one space, each side processed on its own |
| SqliteHelpers.CollapseWhitespaceAppend | cetlib/sqlite/helpers.cc:17-21 | the first replacement works independently on the two sides of a split after a visible character |
| SqliteHelpers.RemoveSpaceAfterCommaAtComma | cetlib/sqlite/helpers.cc:22-26 | at ", " exactly the space goes, and each side is processed on its own |
| SqliteHelpers.RemoveSpaceAfterCommaAppend | cetlib/sqlite/helpers.cc:22-26 | the second replacement works independently on the two sides of a split that does not cut a ", " |
| SqliteHelpers.RemoveSpaceAfterCommaKeepsCollapsed | cetlib/sqlite/helpers.cc:22-26 | the second replacement keeps the string collapsed and leaves no ", " |
| SqliteHelpers.Normalize | cetlib/sqlite/helpers.cc:15-28 | normalize never lengthens its input; its output has only single plain spaces and no comma followed by a space |
| SqliteHelpers.NormalizeIdempotent | cetlib/sqlite/helpers.cc:15-28 | normalize(normalize(s)) == normalize(s) |
| SqliteHelpers.NormalizeKeepsVisibleText | cetlib/sqlite/helpers.cc:15-28 | normalize changes only whitespace: the text without whitespace is unchanged |
| SqliteHelpers.SchemaQuery | cetlib/sqlite/helpers.cc:41-43 | the query is the fixed prefix, then the table name, then a closing quote |
| SqliteHelpers.SchemaQueryInjective | cetlib/sqlite/helpers.cc:41-43 | different table names give different queries |
| SqliteHelpers.HasTableWithSchema | cetlib/sqlite/helpers.cc:45-71 | false iff there are no rows; SQLExecutionError for more than one row; with one row, true iff the normalized schemas are equal, SQLExecutionError otherwise; never false when a row exists |
| SqliteHelpers.NormalizedSchemaAccepted | cetlib/sqlite/helpers.cc:63-66 | a stored schema equal to the normalized expected schema is accepted |
| SqliteHelpers.DifferentTextRejected | cetlib/sqlite/helpers.cc:63-71 | schemas that differ outside whitespace raise SQLExecutionError |
| SqliteHelpers.WhitespaceRunsIrrelevant | cetlib/sqlite/helpers.cc:55-66 | a stored schema that differs from the expected one only in the length or kind of a whitespace run is accepted |
| SqliteHelpers.SpaceAfterCommaIrrelevant | cetlib/sqlite/helpers.cc:55-66 | a stored schema that differs only by whitespace right after a comma is accepted |
| SqliteHelpers.SeparatingSpaceKept | cetlib/sqlite/helpers.cc:63-71 | removing a space between two words (none of them a comma) makes the schemas mismatch, raising SQLExecutionError |
| SqliteHelpers.SchemaMatchSymmetric | cetlib/sqlite/helpers.cc:65 | the one-row comparison does not depend on which schema is stored |
| SqliteHelpers.Substr | cetlib/sqlite/helpers.cc:90 | substr(pos, count) is the min(count, size - pos) characters of s starting at pos |
| SqliteHelpers.AssembleURI | cetlib/sqlite/helpers.cc:85-96 | fails with OtherError exactly when the first five characters are "file:"; otherwise returns "file:" + filename + "?nolock=1", and stripping that prefix and suffix gives back the filename |
| SqliteHelpers.ShortFilenamesAccepted | cetlib/sqlite/helpers.cc:90-94 | filenames shorter than five characters are never rejected |
| SqliteHelpers.AssembledURIRejected | cetlib/sqlite/helpers.cc:90-95 | an assembled URI is itself rejected, so the nolock parameter cannot be wrapped twice |
| SqliteHelpers.AssembleURIInjective | cetlib/sqlite/helpers.cc:95 | different accepted filenames give different URIs |
| NtupleException.Translate | cetlib/Ntuple/Exception.cc:6-21 | succeeds exactly for the four declared codes, with a non-empty name; any other value raises LogicError |
| NtupleException.TranslateNames | cetlib/Ntuple/Exception.cc:11-16 | each of LogicError, SQLExecutionError, OtherError and Unknown translates to its own name |
| NtupleException.TranslateInjective | cetlib/Ntuple/Exception.cc:11-16 | distinct declared codes translate to distinct names |
| Plugin.ReleaseVersion | cetlib/PluginFactory.cc:19-32 | a set callable's return value is used verbatim; with no callable, "Unknown" for an empty stored string and the stored string otherwise |
| Plugin.CallableTakesPrecedence | cetlib/PluginFactory.cc:24-29 | with a callable set, the stored string does not matter |
| Plugin.ReleaseVersionEmptyOnlyFromCallable | cetlib/PluginFactory.cc:24-29 | the result is empty only when the callable is set and returns ""; with no callable it is never empty |

## Left out

- SQLite I/O is not modelled. This covers `openDatabaseFile`, `deleteTable`, `dropTable`, `nrows` and the `query` call inside `hasTableWithSchema`, because they are calls into the SQLite library. The rows the query returns are a parameter. An empty query result is taken to mean zero rows.
- The message text that the exceptions stream is not modelled. A failure carries only its error category.
- A single `Errors.ErrorCode` type stands for the error enumerations of both `cet::sqlite` and the Ntuple `sqlite` namespace. Their headers are not part of this model, and both use the same four categories.
- Plugin loading is not modelled: the library manager `lm_`, the two constructors that forward to it, and any locking. `releaseVersionFunc_` is an opaque callable, so its return value is an input (`Some(v)`), and `None` stands for an empty callable.
- `cetlib/hard_cast.h` is raw memory reinterpretation, and `cetlib/getenv.cc` is a thin wrapper over the process environment. Neither is modelled.
- `cetlib/split_by_regex.cc` is not modelled, because it would need a regular-expression engine.
- The `container_algs` tests exercise `cetlib/container_algorithms.h`, which is not part of this model.
- `bool` and the character types are not among the `Unsigned` types. Conversion to `bool` is not modular, so this model restricts U to the five standard unsigned integer types.
- Widths follow the LP64 data model: unsigned long is 64 bits. `int` is 32 bits.
- The `std::size_t` index of `bit_number` and `left_bits` is a `nat` without the SIZE_MAX bound: neither template does arithmetic on it that could wrap, so the bound changes nothing there. Only `right_bits`, which adds 1 to its index, requires n <= SIZE_MAX.
- BitManipulation.RotateLeftReducedInverse: proved for the reduced count m = n % w only, not for two arbitrary counts that sum to a multiple of w.
- The regex class `\s` is fixed to the six characters of the classic locale.

## Findings

| source | as written | input that shows it | evidently intended | confidence | as-written member | corrected member |
|---|---|---|---|---|---|---|
| cetlib/bit_manipulation.h:70-74 | right_bits<U,n> is `~0u` when n+1 >= w, and `~0u` is a 32-bit unsigned int | U = unsigned long long, n = 63: gives 2^32-1 instead of 2^64-1 | every bit of U set | not executed | BitManipulation.RightBitsAsWrittenVersusIntended | BitManipulation.RightBitsBits |
| cetlib/bit_manipulation.h:60-67 | right_bits<U,n> tests n+1 < w in std::size_t, where n+1 wraps to 0 for n = SIZE_MAX | U = unsigned int, n = SIZE_MAX: bit_number<U,0> - 1 gives 0 | every bit of U set, as for any n >= w-1 | not executed | BitManipulation.RightBitsAsWrittenAtSizeMax | BitManipulation.RightBitsBits |
| cetlib/bit_manipulation.h:118-121 | the wrapped part is masked with w-1, which keeps only log2(w) bits | U = unsigned char, X = 0xFF, n = 4: the result has bit 3 clear instead of 0xFF | rotation left, keeping all m wrapped bits | not executed | BitManipulation.CircLShiftDropsWrappedBits | BitManipulation.RotateLeftReducedBits |
| cetlib/bit_manipulation.h:119-121 | after n %= w, a count of 0 shifts X right by w | U = unsigned int, n = 0 or 32: the shift by 32 is undefined behaviour | X unchanged | not executed | BitManipulation.CircLShift | BitManipulation.RotateLeftReducedBits |
| cetlib/bit_manipulation.h:92-95 | left_bits<U,n> complements the as-written right_bits<U,w-n>, which is `~0u` for n <= 1 | U = unsigned long, n = 0: gives 0xFFFFFFFF00000000 instead of 0 | no bit set, as on types no wider than unsigned int | not executed | BitManipulation.LeftBitsAsWrittenVersusIntended | BitManipulation.LeftBitsBits |
