# str_enum, modelled in Dafny

`str_enum!` is a Rust `macro_rules!` generator. From a list of variants,
each bound to a canonical string literal and optionally to alternate
literals, it emits an enum that converts to and from those strings, behaves
as a `str` in comparisons, hashing and string building, and carries
compile-time tables listing all canonical strings.

This project models ONE generated instance, generic over its schema:

- a schema is an ordered sequence of `VariantSpec(canonical, aliases)`;
  a value of the enum is its declaration index;
- text is the bytes of its UTF-8 encoding (`seq<Byte>`), since every
  length, index and comparison in the generated code is on bytes.

Modules, one per part of `str_enum_base!`:

- `Bytes`: the byte type, `b','` and `b']'`, ASCII byte literals, and the
  lexicographic byte order of `str` (`Compare`, with `LexLess` as an
  independent definition).
- `Schema`: `as_str`, `try_from_str` (first match in declaration order),
  `ALL_VARIANTS`, `NUM_VARIANTS`, `ALL_VALUES`, `len`.
- `ValueTable`: the `const` blocks `ALL_VALUES_STR_LEN` and
  `ALL_VALUE_BYTES`, as methods with the source's `while` loops over an
  `array<Byte>`. They are proved equal to `Join` (comma-joined literals),
  and `Join` is proved to round-trip through `Split`.
- `Diagnostic`: the three-phase array fill behind `EXPECTED_STR_BYTES` and
  `SERDE_EXPECTED_STR_BYTES`, written once and parametrised by the prefix.
- `Errors`: the zero-size error type, `FromStr`/`TryFrom<&str>`/
  `TryFrom<String>`, `TryFrom<&OsStr>` and `Utf8EnumError`.
- `Adapters`: `Display`, `PartialEq`/`PartialOrd` against `str`/`&str` in
  both argument orders, `Hash`, `Add`, and a `TextBuffer` class (a `String`)
  for the in-place `+=` and `Extend`.
- `Scenario`: the two-variant enum of `tests/test.rs` with its expected
  strings.

Points where the behaviour of the macro is easy to misread:

- The macro does not validate its schema: empty, duplicate or overlapping
  literals are accepted, and `try_from_str` resolves them by arm order, so
  the first variant that accepts a literal wins. The model has no
  validation step. Round-trip lemmas state the side condition they need,
  that no earlier arm claims the literal.
- Only the members that use the value table require at least one variant.
  That is where `len - 1` in `ALL_VALUES_STR_LEN` would underflow. Rust
  evaluates associated constants only when they are used.
- The tests declare variants with `=` where the macro's grammar expects
  `=>`. Their expected values (`"Variant1,Variant2"`,
  `"expected one of [Variant1,Variant2]"`, alias `"variant1"`) are taken as
  the intended behaviour and proved in `Scenario`.

## Model

| member | source | states |
|---|---|---|
| `Schema.AsStr` | src/lib.rs:47-51 | definition of `as_str`, the canonical literal; it is accepted by the variant's own arm, and `TryFromAsStr` proves the lookup gives the variant back |
| `Schema.FirstMatchFrom` | src/lib.rs:53-58 | the arms from index `i` on: a result accepts `s` and no arm between `i` and it does; `None` only when no arm from `i` on accepts `s` |
| `Schema.TryFromStr` | src/lib.rs:53-58 | `Some(v)` exactly for the first variant whose canonical literal or alias equals `s`; `None` iff no variant accepts `s` |
| `Schema.TryFromAsStr` | src/lib.rs:47-58 | `try_from_str(as_str(v)) == Some(v)` when no earlier arm accepts `as_str(v)` |
| `Schema.TryFromAlias` | src/lib.rs:55 | an alias of `v` resolves to `v` when no earlier arm accepts it |
| `Schema.EarlierVariantWins` | src/lib.rs:54-57 | a literal accepted by an earlier variant never resolves to a later one (declaration order breaks ties) |
| `Schema.TryFromAsStrAll` | src/lib.rs:47-58 | when no literal is accepted by two arms, the round trip holds for every variant |
| `Schema.AllVariants` | src/lib.rs:44 | `ALL_VARIANTS` lists every variant exactly once, in strictly increasing declaration order |
| `Schema.NumVariants` | src/lib.rs:45 | `NUM_VARIANTS` is the length of `ALL_VARIANTS`, the number of declared variants |
| `Schema.AllValues` | src/lib.rs:60 | `ALL_VALUES` has `NUM_VARIANTS` entries and entry `i` is `as_str(ALL_VARIANTS[i])` |
| `Schema.Len` | src/lib.rs:105-107 | `len(v)` is the byte length of `as_str(v)` |
| `ValueTable.AllValueStr` | src/lib.rs:96-101 | definition of `ALL_VALUE_STR` as the comma-joined literals, Σ\|canonicalᵢ\| + NUM_VARIANTS − 1 bytes long; `AllValueBytes` proves the built array equal to it |
| `ValueTable.JoinLength` | src/lib.rs:62-71 | the joined table is Σ\|canonicalᵢ\| + n − 1 bytes long, for n ≥ 1 |
| `ValueTable.JoinSplitAt` | src/lib.rs:77-91 | the table is the strings before `i`, each followed by a comma, then the join of the rest |
| `ValueTable.TableStep` | src/lib.rs:78-89 | after the strings before `i` and their commas, the table holds string `i` and then a comma unless `i` is the last, and ends there if it is |
| `ValueTable.SplitJoin` | src/lib.rs:73-93 | splitting the joined table on `,` gives the strings back in order, when none contains a comma |
| `ValueTable.AllValuesAreSplitTable` | src/lib.rs:60-93 | `ALL_VALUES` equals `ALL_VALUE_STR` split on `,`, when no canonical literal contains a comma |
| `ValueTable.AllValuesStrLen` | src/lib.rs:62-71 | the loop's result is Σ\|canonicalᵢ\| + NUM_VARIANTS − 1, which is the length of the joined table |
| `ValueTable.CopyValue` | src/lib.rs:79-84 | the inner loop writes `value` at `start..start+\|value\|` and leaves every other byte unchanged |
| `ValueTable.FillValueBytes` | src/lib.rs:73-93 | the nested loops over `ALL_VALUES` fill a `ALL_VALUES_STR_LEN`-byte buffer with exactly the comma-joined strings, all writes in bounds, no byte left zero |
| `ValueTable.AllValueBytes` | src/lib.rs:73-93 | `ALL_VALUE_BYTES` is the canonical literals in declaration order joined by single commas, no trailing comma |
| `Diagnostic.FillDiagnostic` | src/lib.rs:259-278 | the buffer has length \|prefix\| + 1 + \|table\| and holds prefix ++ table ++ `]`, so every slot is written and `]` is the last byte |
| `Diagnostic.ExpectedStr` | src/lib.rs:280-285 | definition of `EXPECTED_STR`: the 17-byte prefix, `ALL_VALUE_STR`, then `]`; `ExpectedStrBytes` proves the built array equal to it |
| `Diagnostic.SerdeExpectedStr` | src/lib.rs:542-547 | definition of `SERDE_EXPECTED_STR`: the 8-byte prefix, `ALL_VALUE_STR`, then `]`; `SerdeExpectedStrBytes` proves the built array equal to it |
| `Diagnostic.ExpectedStrBytes` | src/lib.rs:259-278 | `EXPECTED_STR_BYTES` is `"expected one of ["` ++ `ALL_VALUE_STR` ++ `"]"`, 18 + `ALL_VALUES_STR_LEN` bytes |
| `Diagnostic.SerdeExpectedStrBytes` | src/lib.rs:521-540 | `SERDE_EXPECTED_STR_BYTES` is `"one of ["` ++ `ALL_VALUE_STR` ++ `"]"`, 9 + `ALL_VALUES_STR_LEN` bytes |
| `Diagnostic.DiagnosticsShareTable` | src/lib.rs:521 | the parse and serde messages differ only in their prefix and are 9 bytes apart in length |
| `Diagnostic.ExpectedPrefix` | src/lib.rs:264 | the parse prefix is 17 bytes |
| `Diagnostic.SerdePrefix` | src/lib.rs:526 | the serde prefix is 8 bytes |
| `Errors.Parse` | src/lib.rs:296-327 | `from_str`, `try_from(&str)` and `try_from(String)` give `Ok(v)` iff `v` is the first variant accepting `s`, otherwise `Err` of the unit error; there is no default fallback |
| `Errors.ParseAsStr` | src/lib.rs:296-305 | parsing a variant's canonical literal gives `Ok(v)` when no earlier arm claims it |
| `Errors.TryFromOsStr` | src/lib.rs:329-337 | invalid UTF-8 gives `Utf8(e)` with std's error and never consults the variants; valid text no arm accepts gives `InvalidVariant(ParseError)`, and only it does; `Ok` is the first match |
| `Errors.OsStrAgreesWithParse` | src/lib.rs:329-337 | on valid UTF-8 the OS-string conversion is `Parse` with the error wrapped in `InvalidVariant` |
| `Errors.ParseErrorText` | src/lib.rs:288-292 | the error's text is the 17-byte prefix, then `ALL_VALUE_STR`, then `]` |
| `Errors.Utf8EnumErrorText` | src/lib.rs:625-635 | `Utf8EnumError`'s text is that of the wrapped error: std's for `Utf8`, `EXPECTED_STR` for `InvalidVariant` |
| `Adapters.Display` | src/lib.rs:124-128 | the displayed text is `as_str(v)`, `len(v)` bytes long, and parses back to `v` when no earlier arm claims it |
| `Adapters.EqStr` | src/lib.rs:194-210 | `v == s` (for `str` and `&str`) iff `s` is `as_str(v)` |
| `Adapters.StrEq` | src/lib.rs:200-216 | `s == v` (for `str` and `&str`) iff `s` is `as_str(v)` |
| `Adapters.CmpStr` | src/lib.rs:226-242 | `v.partial_cmp(s)` is always `Some`; `Less` iff `as_str(v)` sorts lexicographically before `s`, `Equal` iff `v == s` |
| `Adapters.StrCmp` | src/lib.rs:220-236 | `s.partial_cmp(v)` is always `Some`; `Less` iff `s` sorts before `as_str(v)`, `Equal` iff `s == v` |
| `Adapters.EqSymmetric` | src/lib.rs:194-216 | equality gives the same answer in both argument orders and agrees with `partial_cmp` returning `Equal` |
| `Adapters.CmpAntisymmetric` | src/lib.rs:220-242 | comparing from the `str` side gives the reverse of comparing from the enum side |
| `Adapters.SortedLiteralsFollowDeclarationOrder` | src/lib.rs:226-230 | when canonical literals are declared in increasing order, an earlier variant compares `Less` against a later variant's string |
| `Adapters.HashVariant` | src/lib.rs:136-140 | hashing a variant feeds the hasher `as_str(v)` as a `str`, after what it already held |
| `Adapters.HashAgreesWithEq` | src/lib.rs:130-140 | a variant and a string feed the hasher the same input iff they are equal, the condition for `HashMap<Enum, _>` lookups by `&str` |
| `Adapters.HashSeparatesVariants` | src/lib.rs:136-140 | variants with different canonical literals feed the hasher different input |
| `Adapters.Add` | src/lib.rs:142-156 | `buf + v` keeps `buf` and appends `as_str(v)`, growing by `len(v)` bytes |
| `Adapters.CollectAppend` | src/lib.rs:367-389 | collecting an iterator of variants into text is compositional: the texts of consecutive parts are concatenated |
| `Adapters.Collect` | src/lib.rs:367-389 | definition of `FromIterator` into text: the literals in iteration order, as long as the `len()`s of the variants added up; `CollectAppend` proves it compositional and `TextBuffer.Extend` is proved equal to it |
| `Adapters.TextBuffer.AddAssign` | src/lib.rs:158-168 | `buf += v` makes the buffer `old buf + as_str(v)` and changes nothing else |
| `Adapters.TextBuffer.Extend` | src/lib.rs:172-176 | `extend(vs)` appends the literal of each variant in iteration order |
| `Scenario.MyEnumLookup` | tests/test.rs:14-32 | in the test enum `"Variant1"`, `"Variant2"` and alias `"variant1"` parse to their variants and `"nonexistent"` is an error |
| `Scenario.MyEnumMapKeys` | tests/test.rs:77-88 | `"Variant1"` equals `Variant1` and `"Variant2"` equals `Variant2`, so their map lookups find them; the alias `"variant1"` equals neither variant, so it finds nothing |
| `Scenario.MyEnumValueTable` | tests/test.rs:55-58 | the test enum's `ALL_VALUE_STR` is `"Variant1,Variant2"` |
| `Scenario.MyEnumDiagnostics` | tests/test.rs:60-63 | the test enum's `EXPECTED_STR` is `"expected one of [Variant1,Variant2]"` and its serde string is `"one of [Variant1,Variant2]"` |

## Left out

- The `str::from_utf8` checks and their `panic!()` (src/lib.rs:96-101, 280-285, 542-547). The tables are proved to be exactly the joined bytes of the literals, which are already valid text, so the panic branch is unreachable. UTF-8 validation itself is std's and is not re-implemented.
- `TryFromOsStr`: std's `&OsStr` to `&str` conversion is a parameter (`checkUtf8`), not a model of UTF-8.
- `HashVariant`: the model records the `str` values fed to the hasher. How std's `<str as Hash>` turns them into bytes (a trailing `0xff`) and how a `Hasher` turns bytes into a `u64` are not modelled.
- `Display` and `ParseErrorText`: both write through `<str as Display>::fmt` (src/lib.rs:126, 290), that is `Formatter::pad`. Its width, fill, alignment and precision (a precision truncates the text) are std's and are not modelled; the text is the one written with no format flags.
- `Borrow<str>` (src/lib.rs:130-134) returns `as_str()` and is not a member of its own. Its consequence for maps is `HashAgreesWithEq`.
- `EqStr` and `StrEq` also stand for the comparisons with `String` and `Cow<str>` (src/lib.rs:191-192), which compare as `str`. The comparisons with `OsStr`, `OsString`, `Path` and `PathBuf` (src/lib.rs:191, 218) are left out; their meaning lies in std.
- `Add` and `TextBuffer.AddAssign` stand for both `String` and `Cow<str>` (src/lib.rs:142-168). The owned-or-borrowed distinction of `Cow` is not modelled.
- `ToSocketAddrs` (src/lib.rs:244-250): network name resolution.
- `AsRef<str/OsStr/Path/[u8]>` and `From` into `Arc<str>`, `Box<str>`, `Rc<str>`, `String`, `Vec<u8>`, `Box<dyn Error>` and `Cow<str>` (src/lib.rs:170, 178-179, 340-366). Each is std's conversion applied to `as_str()`.
- `Index<I>` (src/lib.rs:183-189): it depends on std's char-boundary panics.
- The `strum` adapters (src/lib.rs:441-514) and serde's `Serialize`, `Deserialize` and `Expected` impls (src/lib.rs:551-576): bindings into external protocols. Only the serde diagnostic string is modelled.
- Compiler-derived traits (`Debug`, `Clone`, derived `PartialOrd`/`Ord`) and the `#[repr]` casts `into_repr`/`From<Enum> for repr` (src/lib.rs:31-41, 110-122): the compiler supplies them.
- Parsing of the macro's token syntax: the model starts from the schema.
- `AllValuesStrLen`: integers are unbounded. A `usize` overflow of the summed length, which would also fail const evaluation, is not modelled.
