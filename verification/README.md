# ArchSpec: verified model of the parsers, aggregators and JSON report

ArchSpec reads small kernel text files, parses them, aggregates them into fields with a
status, and prints one JSON report. This project models that path in Dafny, from the
bytes of a file to the bytes of the report, and proves what the parts promise:

* **The report is read back exactly.** `JsonGrammar` is a parser for RFC 8259 (sections 2
  to 7). For every report, that parser consumes the whole printed text and returns the
  intended tree: every member in its order, every array element, every number exactly.
* **The text parsers mean what they should.** CPU lists count the ids they denote; colon
  blocks and os-release files are read back from every rendering of them; `strtoull` and
  `strtoll` are specified from section 7.22.1.4 of ISO C11, implemented as loops, and the
  accepted numbers and sizes are characterised exactly, with their 2^64 guards.
* **The aggregators conserve what they count.** The topology fold, the keyed cache
  de-duplication, and the category masks shared by both front ends, the collector and
  the printer.
* **What is read is what is there.** Files that hold a number, a set of CPUs, a size or a
  text are read into the fields that are named after them, and a reader of the report
  finds each field under its key. Every report conforms to the published schema.
* **Every field tells the truth.** For every file system, a field of the CPU, ISA and
  cache sections is valid if and only if its status is `ok`, and that holds of the
  printed and re-parsed report too.

`Inspection.CollectJson` puts the parts together.

## How the model is laid out

| file | what it holds |
|---|---|
| `text.dfy`, `numerals.dfy`, `numbers.dfy` | trimming, splitting, `getline`, words; literals; `strto*` and the numeric readers |
| `cpu_list.dfy`, `key_values.dfy`, `readers.dfy` | CPU lists; colon blocks and os-release; files, first lines, CPU directories |
| `fields.dfy`, `categories.dfy` | `Status` and `Field<T>`; masks and the two category parsers |
| `json_grammar.dfy`, `json_text.dfy`, `json_printer.dfy` | the JSON parser, the compact text and its round trip; the printer |
| `topology.dfy`, `cpu.dfy`, `cpu_info.dfy` | the topology fold; address sizes; `collect_cpu` |
| `cache.dfy`, `isa.dfy` | `collect_cache`; `collect_isa` |
| `reports.dfy`, `collection.dfy`, `inspection.dfy` | the report printer; the collector; both together |
| `schema.dfy` | the published report schema, and that every report conforms to it |

Where the source is a loop or an object, the model is a method with invariants or a class
with fields, proved equal to a recursive function. Lemmas then say what that function
means without naming it: by positions, by the files and lines that it is given, by its
inverse, or by what a reader of the JSON finds. Code that only computes is a function.

Conventions. A byte with value n is the `char` with code n, so a statement about every
string covers every byte string; embedded NUL bytes are covered, because the C functions
are given the prefix before the first NUL. `isspace`, `tolower` and the digits are those
of the C locale. A 64-bit mask is the set of the positions of its one bits, so `|` and
`&` are union and intersection. Fixed-width integers are subset types, and wrap-around is
written out. The file system is a function from paths to read results and to sorted
listings; the machine name and the number of hardware threads are inputs.

## What turned out false, and what holds instead

* A cache key is meant to identify a cache (the comment at src/cache.cc:54-56). A sharing
  list that spells the suffix of an unreadable one collides with it
  (`CacheCollector.KeysCollide`), and there is a machine of which `collect_cache` loses a
  cache (`CacheLost`). `KeyIdentifies` gives the exact condition for two caches, and
  `CollectedIdentities` for whole machines: a cache is kept exactly when no entry mimics
  it or is mimicked by it, which holds for all when no sharing list contains `|`.
* `riscv_has_extension` looks for `rv32` anywhere before it looks for `rv64`, and takes a
  letter after any underscore for an extension. So a 64-bit string with a name that spells
  `rv32` is read from inside that name (`IsaCollector.BaseInsideName`), an extension that
  stands second in a later group of letters is missed (`LetterMissed`: `rv64i_ma` without
  A), and the name of a hypervisor-level extension is taken for H (`NameMistaken`:
  `rv64gc_hxyz` with H). `RiscvAnswer` says what the code answers for every text, and
  `RiscvExact` exactly when that is right, for strings of letter groups, attached names and
  version numbers as chapter 27 of the RISC-V Unprivileged ISA (20191213) forms them. For
  strings with one block of letters and names after z, s or x, `RiscvMembership` leaves
  only the first of the three cases.
* The two front ends differ on category lists: the command line ignores one trailing
  comma and takes `all` only as the whole text, while Python rejects the comma and takes
  `all` as a token (`Categories.TrailingComma` is an input). `ParsersAgreeExactly` gives
  the exact condition for every text.

## Model

| member | source | states |
|---|---|---|
| Text.TrimSplits | src/internal.hh:33-44 | trimming removes only white space, at both ends, and what is left neither starts nor ends with it |
| Text.TrimPad | src/internal.hh:33-44 | any white-space padding of a trimmed text is undone |
| Text.LinesSplit | src/internal.hh:411-414 | `getline` yields the pieces between newlines, without an empty last one |
| Text.LinesConcat | src/internal.hh:411-414 | a text that ends in a newline contributes its lines independently of what follows |
| Text.SplitStep | src/internal.hh:321-358 | one `find` of the separator cuts off exactly the first piece of what is left |
| Text.SplitJoin | tools/archspec-inspect.cc:72-74 | splitting at the separator undoes joining with it |
| Text.WordsAre | src/internal.hh:295-305 | the words are exactly the maximal runs without white space, wherever they stand |
| Text.WordsFirst | src/internal.hh:295-305 | words come out in order |
| Numerals.LongestLiteral | src/internal.hh:169-171 | the left-to-right scan reads the longest initial C literal, as the subject sequence of base 0 is defined |
| Numerals.DecimalIsLiteral | src/internal.hh:160-185 | the printed decimal of every number is a base-0 literal of the same value |
| Numerals.BaseLiterals | src/internal.hh:171 | numerals behind 0x, 0X and 0 are literals of the value that they have in base 16 and 8 |
| Numbers.ScanDigits | src/internal.hh:171 | the digit loop finds the maximal digit run and its positional value |
| Numbers.ScanInteger | src/internal.hh:171 | white space, sign and prefix are consumed as the C standard says, for bases 0 and 10 |
| Numbers.Strtoull | src/internal.hh:169-171 | out of range exactly above 2^64-1; a minus sign negates modulo 2^64 |
| Numbers.Strtoll | src/internal.hh:193-195 | out of range exactly outside the signed 64-bit range, after the sign is applied |
| Numbers.OnlySpaceFrom | src/internal.hh:176-181 | true if and only if nothing but white space follows the number |
| Numbers.ScanReads | src/internal.hh:169-181 | a scan followed by white space alone has read one complete signed literal, and every such literal is so read |
| Numbers.ParseU64 | src/internal.hh:160-185 | the trim, the sign test, `strtoull` and the trailing loop together compute `U64Text`, a definition without scanning |
| Numbers.U64Exact | src/internal.hh:160-185 | accepted if and only if the trimmed text is an optional plus and a complete literal of at most 2^64-1, with exactly that value |
| Numbers.U64OfDecimal | src/internal.hh:160-185 | the padded decimal of n parses to n when n < 2^64 and is rejected otherwise |
| Numbers.U64OfNumeral | src/internal.hh:160-185 | the padded hexadecimal and octal numerals of n parse to n in the 64-bit range |
| Numbers.ParseI64 | src/internal.hh:187-209 | the same for signed numbers |
| Numbers.I64Exact | src/internal.hh:187-209 | accepted if and only if the trimmed text is a complete literal behind an optional sign whose signed value is in range |
| Numbers.I64OfDecimal | src/internal.hh:187-209 | the decimal of every integer parses to it exactly when it is a signed 64-bit number |
| Numbers.GuardExact | src/internal.hh:222-225 | the division guard rejects exactly the products above 2^64-1 |
| Numbers.Multiplier | src/internal.hh:499-508 | the suffix chain picks the unit of the suffix |
| Numbers.ParseSizeBytes | src/internal.hh:481-515 | the loop-free conversion and its guard return the unbounded product or nothing |
| Numbers.SizeExact | src/internal.hh:481-515 | for every text, a size is accepted if and only if it is decimal digits, white space and a known suffix in any case whose product fits, and that product is returned |
| Numbers.SizeOfDecimal | src/internal.hh:499-513 | a number and a unit mean the number times 1, 1024, 1048576 or 1073741824, when that fits |
| CpuList.AddToken | src/internal.hh:327-353 | one token adds its unbounded width, or is rejected when malformed or when the sum, or the wrapped width 2^64, does not fit |
| CpuList.CpuListCount | src/internal.hh:312-362 | the loop terminates and computes the count of the whole list |
| CpuList.TokenExact | src/internal.hh:327-346 | a token is one number, or two with a dash between them that ascend |
| CpuList.CountExact | src/internal.hh:312-362 | a blank text counts nothing; otherwise n if and only if every token is a well-formed id or ascending range and the unbounded widths sum to n <= 2^64-1 |
| CpuList.CountAndIds | src/internal.hh:312-362 | the total of the widths is at least the number of ids, with equality exactly for pairwise disjoint ranges |
| CpuList.CountMeaning | src/internal.hh:312-362 | the same for every accepted text |
| CpuList.ListTextCounts | src/internal.hh:312-362 | any printed list of ranges is counted as the sum of its widths, or rejected when that does not fit |
| CpuList.RunsAre | src/internal.hh:312-362 | the maximal runs of a finite set denote it, have its size as total width, and cannot be merged |
| CpuList.SetRoundTrip | src/internal.hh:312-362 | printing any set of 64-bit ids as maximal runs and counting gives the size of the set |
| KeyValues.ParseColonBlocks | src/internal.hh:408-436 | the loop with its pending block computes the recursive meaning of the text |
| KeyValues.BlocksAreClean | src/internal.hh:415-428 | every block is non-empty and every key and value is trimmed |
| KeyValues.BlocksCut | src/internal.hh:415-421 | a blank line separates what is parsed before and after it |
| KeyValues.BlocksConcat | src/internal.hh:408-436 | for all texts a and b, parsing a, a blank line and b gives the blocks of a, then those of b |
| KeyValues.NoColonSkipped | src/internal.hh:423-426 | a line without a colon is as if it were not there |
| KeyValues.LineReads | src/internal.hh:423-428 | a line with any padding around its colon is read as its key and value |
| KeyValues.BlocksRoundTrip | src/internal.hh:408-436 | rendering any list of non-empty blocks and parsing it gives the same blocks in order |
| KeyValues.LastLineWins | src/internal.hh:428 | a block maps each key to the value of its last line and has no other key |
| KeyValues.DistinctKeys | src/internal.hh:428 | with distinct keys, a parsed block is exactly the pairs that were written |
| KeyValues.UnquoteValue | src/internal.hh:378-404 | the escape loop computes the unescaped text between equal quotes |
| KeyValues.UnquotedPlain | src/internal.hh:379-387 | a text that is not between two equal quotes is its own value, trimmed |
| KeyValues.UnquotedSpelled | src/internal.hh:389-403 | between double quotes a backslash keeps any character after it, and is dropped itself, also at the end |
| KeyValues.EverySpelling | src/internal.hh:389-403 | every text between double quotes is of that form |
| KeyValues.UnquotedQuoted | src/internal.hh:378-404 | double quoting with escapes and single quoting are undone for every value, and a trimmed value without quotes around it needs none |
| KeyValues.ParseOsRelease | src/os.cc:17-38 | the loop keeps the last assignment to each key |
| KeyValues.OsReleaseRoundTrip | src/os.cc:17-38 | any file of assignments, quoted or not, comments, blank lines and lines without "=" parses to what it means |
| KeyValues.MeaningIs | src/os.cc:33-34 | each key has the value of its last assignment, and no other key is there |
| Fields.StatusCodeInjective | src/core.cc:21-33 | different statuses have different codes, so "ok" means `Ok` |
| Readers.LineField | src/internal.hh:151-254 | every field read from a first line is valid exactly when its status is `ok` |
| Readers.JoinPathIs | src/internal.hh:64-78 | root and name are joined by one slash |
| Readers.FirstLineIs | src/internal.hh:137-149 | the first line of a file is what stands before the first newline, or all of it |
| Readers.FieldRead | src/internal.hh:151-254 | a file that cannot be read gives its status; otherwise its first line decides between a value and a parse error |
| Readers.NumberRead | src/internal.hh:211-226 | a file that holds n is read as n times the multiplier, or a parse error when that is no 64-bit number |
| Readers.IdRead | src/internal.hh:228-240 | a file that holds n is read as n when n < 2^32 |
| Readers.SignedRead | src/internal.hh:242-254 | a file that holds a signed number is read as it when it is in range |
| Readers.CpuSetRead | src/internal.hh:364-376 | a file that lists a set of CPUs is read as its size |
| Readers.SizeRead | src/internal.hh:517-529 | a file that holds n kilobytes is read as 1024 n |
| Readers.TextRead | src/internal.hh:151-158 | a file is read as its trimmed first line |
| Readers.ReadStringField | src/internal.hh:151-158 | the trimmed first line, or the status of the failed read |
| Readers.ReadU64Field | src/internal.hh:211-226 | the exact unbounded product with any multiplier, zero included, or a parse error |
| Readers.ReadU32Field | src/internal.hh:228-240 | a number of at most 2^32-1, or a parse error |
| Readers.ReadI64Field | src/internal.hh:242-254 | a signed number, or a parse error |
| Readers.ReadCpuListCountField | src/internal.hh:364-376 | the count of a CPU list, or a parse error |
| Readers.ReadSizeBytesField | src/internal.hh:517-530 | the bytes of a size, or a parse error |
| Readers.FindCpuDirs | src/cpu.cc:50-61 | the loop keeps exactly the names of cpu and a 32-bit number, each with its path |
| Readers.CpuDirs | src/cpu.cc:46-65 | the directories named cpu followed by a 32-bit number, sorted |
| Readers.DirIdIs | src/cpu.cc:51-58 | the names taken are "cpu" and a 32-bit number |
| Readers.DirsAt | src/cpu.cc:50-61 | each such name gives one directory, in the order of the listing, and no other name does |
| Readers.SortedPairs | src/cpu.cc:63 | after sorting ids ascend, and paths do byte by byte where ids are equal |
| Readers.SortOrders | src/cpu.cc:63 | the sort orders by id, and by path where ids are equal, and keeps every directory as often as it occurs |
| JsonPrinter.EscapeJson | src/json.cc:12-54 | the byte loop, with its padded hexadecimal escapes, computes the escaped text |
| JsonText.StringRoundTrip | src/json.cc:12-58 | decoding a printed string by section 7 of RFC 8259 returns it and stops at its closing quote, whatever follows |
| JsonText.EscapedInjective | src/json.cc:12-58 | two printed strings that agree, with any text after them, are the same string |
| JsonText.EscapedHasNoControl | src/json.cc:38-48 | no byte below 0x20 is left inside a string |
| JsonText.NumberParses | src/json.cc:75-83 | every printed integer is read back exactly and ends at its delimiter |
| JsonText.RoundTrip | src/json.cc:64-206 | every nested tree is read back from its text, and what follows it is left over |
| JsonText.TextRoundTrip | src/json.cc:64-206 | the text of a tree is one complete JSON text and means that tree |
| JsonPrinter.JsonObject.constructor | src/json.cc:100-101 | a fresh object has no members |
| JsonPrinter.JsonObject.AddComma | src/json.cc:93-99 | a comma is written exactly when there is a member already |
| JsonPrinter.JsonObject.Append | src/json.cc:66-69 | the text stays the comma-join of the members, and one is added at the end |
| JsonPrinter.JsonObject.AddRaw | src/json.cc:66-69 | one raw member is added |
| JsonPrinter.JsonObject.AddString | src/json.cc:71-73 | one member is added whose text denotes that string |
| JsonPrinter.JsonObject.AddU64 | src/json.cc:75-78 | one member is added whose text denotes that number |
| JsonPrinter.JsonObject.AddI64 | src/json.cc:80-83 | one member is added whose text denotes that signed number |
| JsonPrinter.JsonObject.AddBool | src/json.cc:85-87 | one member is added whose text denotes that truth value |
| JsonPrinter.JsonObject.Str | src/json.cc:89-91 | braces around the comma-join of all members added |
| JsonPrinter.StringFieldToJson | src/json.cc:104-113 | the envelope of the field: "value" is there exactly when "valid" is true |
| JsonPrinter.BoolFieldToJson | src/json.cc:115-126 | the same for a truth value |
| JsonPrinter.U32FieldToJson | src/json.cc:128-139 | the same for a 32-bit number |
| JsonPrinter.U64FieldToJson | src/json.cc:141-152 | the same for a 64-bit number |
| JsonPrinter.I64FieldToJson | src/json.cc:154-165 | the same for a signed number |
| JsonPrinter.AddCell | src/json.cc:167-185 | a field, string, array or nested struct becomes one member with its intended tree |
| JsonPrinter.RecordToJson | src/json.cc:208-235 | a struct prints as the object of its entries, in order |
| JsonPrinter.VectorToJson | src/json.cc:189-206 | an array of any length prints with brackets and single commas, each element by its own printer |
| JsonPrinter.CellReads | src/json.cc:104-165 | a reader of a printed field gets its flag, its status code and, when valid, its content |
| JsonPrinter.RecordReads | src/json.cc:167-235 | a reader of a printed struct finds each entry under its key, in order, and each array element in its place |
| JsonPrinter.EnvelopeHonest | src/json.cc:104-113 | a printed envelope claims "ok", and carries "value", exactly when its flag is true, if and only if the field is truthful |
| JsonPrinter.TreeHonest | src/json.cc:104-206 | at any depth, the printed tree is truthful if and only if the fields are |
| Categories.FindEntry | tools/archspec-inspect.cc:76-82 | the table loop finds the category of a name, or there is none |
| Categories.AddCategory | python/archspec_inspect/_native.cc:33-41 | a known name adds its bit, and an unknown one changes nothing |
| Categories.ParseCategories | tools/archspec-inspect.cc:57-89 | the OR of the bits of all names; on failure the mask before the first unknown name and the message that names it |
| Categories.ParseCategoryName | python/archspec_inspect/_native.cc:43-60 | empty, "all", known and unknown names, each with its mask or error |
| Categories.ParsePythonCategories | python/archspec_inspect/_native.cc:68-91 | the loop reads every piece in order up to the first error |
| Categories.UnknownAt | tools/archspec-inspect.cc:74-87 | the error names the first unknown name, and the mask is that of the names before it |
| Categories.PythonErrorAt | python/archspec_inspect/_native.cc:47-58 | the Python error is that of the first empty or unknown piece |
| Categories.BitsOfNames | tools/archspec-inspect.cc:71-87 | for any length, order and repetition, the mask has exactly the named categories and no other bit |
| Categories.ParsersAgree | tools/archspec-inspect.cc:57-89 | without the token "all", the command line accepts a text exactly as Python accepts it less one trailing comma, with the same mask |
| Categories.PythonImpliesCli | python/archspec_inspect/_native.cc:62-91 | a text that Python accepts without the token "all" is accepted by the command line with the same mask |
| Categories.AllToken | python/archspec_inspect/_native.cc:51-54 | with the token "all", Python yields the full mask for any good list, and the command line accepts only "all" itself |
| Categories.ParsersAgreeExactly | python/archspec_inspect/_native.cc:62-91 | the two parsers give the same result exactly when the text is "all", or some piece is no name, or a trailing comma and the token "all" come together or not at all |
| Categories.TrailingComma | tools/archspec-inspect.cc:74 | "os," is the os category on the command line and an error in Python |
| Categories.NamesRoundTrip | src/json.cc:367-381 | joining the names printed for a mask with a known bit and reading them with either parser gives the mask cut to the 14 known bits |
| Categories.KnownBits | include/aview.hh:472-503 | masks with the same categories agree on the 14 known bits |
| Categories.SelectedKnown | src/json.cc:367-381 | the printed selection depends on the known bits alone |
| Categories.SelectedDistinct | src/json.cc:350-381 | no category is printed twice |
| Categories.SelectedInOrder | src/json.cc:350-381 | the selection is listed in the order of the bits, for every mask |
| Reports.SelectedToJson | src/json.cc:367-381 | the loop prints the array of the selected names in table order, with no comma missing or extra |
| Reports.AddSection | src/json.cc:385-387 | one guarded section is added, at its place in the table and nowhere else |
| Reports.DataToJson | src/json.cc:383-427 | the fourteen statements print one object of the selected sections in table order |
| Reports.ReportToJson | src/json.cc:337-430 | for every report, the RFC 8259 parser of the model consumes the whole text and returns the intended tree |
| Collection.Collector.constructor | src/core.cc:71 | the collector holds its options |
| Collection.Collector.SetOptions | src/core.cc:77-79 | the options are replaced |
| Collection.Collector.CollectOne | src/core.cc:84 | without its category a member stays as it was |
| Collection.Collector.Collect | src/core.cc:81-100 | every member is its collector's result exactly when selected |
| Collection.CollectReport | src/core.cc:118-123 | the report carries the mask that it was collected with |
| Collection.SelectedIsCollected | src/core.cc:81-100 | a selected section is what its collector returned, and any other is left as it was |
| Collection.SerializedIsCollected | src/core.cc:81-123 | every serialized section is its collector's result; nothing left at its default is printed |
| Collection.KeysAreCategories | src/json.cc:367-427 | the keys of "data" are the listed categories, in the same order, without duplicates, and are exactly the categories of the mask |
| Collection.UnknownBitsDoNotMatter | include/aview.hh:472-503 | masks that agree on the 14 known bits give the same JSON text |
| Collection.ReportIsHonest | src/json.cc:383-430 | if the selected collectors return truthful fields, so is every object of the printed report |
| ReportSchema.ReportConforms | schema/archspec-report-v1.schema.json:6-71 | every report has exactly the four properties, the constant version and producer name, distinct listed category names, data under such names only, and conforming fields at every depth |
| ReportSchema.SectionsShown | src/json.cc:383-427 | a reader of the data finds each selected section under its name, and nothing under the others |
| Topology.PlacesAre | src/cpu.cc:333-343 | packages, cores per package and threads per core are those of the entries with both ids, counted by position |
| Topology.FoldTopology | src/cpu.cc:329-343 | the three containers hold exactly the packages, the core ids per package and the threads per core of the entries with both ids |
| Topology.ThreadsConserved | src/cpu.cc:342 | the thread counts of all cores sum to the number of entries with both ids |
| Topology.CoresConserved | src/cpu.cc:340-341 | the number of cores is the sum of the packages' core counts |
| Topology.ProductBound | src/cpu.cc:345-375 | sockets times largest core count times largest thread count is at least the number of placed CPUs, with equality exactly in a uniform machine |
| Topology.MaxCores | src/cpu.cc:356-359 | the loop finds the largest core set, and it is attained |
| Topology.MaxThreads | src/cpu.cc:368-371 | the loop finds the largest thread count, and it is attained |
| Topology.DeriveCounts | src/cpu.cc:329-375 | sockets, cores per socket and threads per core under each combination of fallbacks |
| Topology.DerivedIsCounted | src/cpu.cc:345-375 | sockets is the number of the entries' packages, cores per socket the largest number of core ids of one package, threads per core the largest number of entries with one package and core |
| Topology.ProductOfEntries | src/cpu.cc:345-375 | the bound and its equality in terms of the entries |
| Topology.CountsFit | src/cpu.cc:331-375 | no count exceeds the number of entries, so no 64-bit counter wraps |
| Topology.ReportedProduct | src/cpu.cc:345-375 | without a valid "cpu cores", the three reported fields satisfy the bound |
| CpuCollector.ParseAddressSizes | src/cpu.cc:88-130 | the loop with its remembered number computes the answer for each keyword |
| CpuCollector.AnswerIs | src/cpu.cc:107-129 | the answer is the last number before the last keyword that follows a number, and there is none exactly when no keyword follows one |
| CpuCollector.AddressFieldIs | src/cpu.cc:93-98 | a missing line is not found, and a line without an answer is a parse error |
| CpuCollector.AddressSizesRoundTrip | src/cpu.cc:88-130 | both clauses, in either order, parse to exactly their two numbers, for all 64-bit values |
| CpuInfoCollector.ReadU64FromMap | src/internal.hh:461-479 | the first non-empty value decides: its number, or a parse error |
| CpuInfoCollector.ReadStringFromMap | src/internal.hh:447-459 | the first non-empty value, or not found |
| CpuInfoCollector.FirstGivenIs | src/internal.hh:447-479 | the first key with a non-empty value decides |
| CpuInfoCollector.GivenFields | src/internal.hh:447-479 | its text is the string field, and its number or a parse error the numeric one |
| CpuInfoCollector.U32FromMapIs | src/cpu.cc:76-86 | a block gives a number under a key when the text there is a 32-bit number |
| CpuInfoCollector.ProcessorOfIs | src/cpu.cc:164-166 | the number of a block is that of its processor line |
| CpuInfoCollector.BlocksByProcessor | src/cpu.cc:158-172 | the last block for each processor number |
| CpuInfoCollector.ByProcessorIs | src/cpu.cc:158-172 | the table has exactly the processor numbers of the blocks, each with the last block that gives it |
| CpuInfoCollector.AddCpuinfoTopology | src/cpu.cc:174-196 | one entry per block with a 32-bit processor number, in order |
| CpuInfoCollector.BlockEntriesAt | src/cpu.cc:178-195 | each block with a 32-bit processor number gives one entry with its core id and physical id, in order |
| CpuInfoCollector.EntryFromFiles | src/cpu.cc:281-306 | each file of a CPU directory is read into the field of its name |
| CpuInfoCollector.EntryFallsBack | src/cpu.cc:308-320 | an id without a valid file comes from the block of that processor, if it is given there |
| CpuInfoCollector.NumaNodeIs | src/cpu.cc:296-306 | the node is that of the first child named "node" and a 32-bit number |
| CpuInfoCollector.ReadEntry | src/cpu.cc:281-320 | the ids from sysfs, or else from the block of that processor, and the first NUMA node |
| CpuInfoCollector.ReadTopology | src/cpu.cc:279-327 | the sysfs entries, or the cpuinfo entries when there are none |
| CpuInfoCollector.TopologyIs | src/cpu.cc:280-327 | one entry for each CPU directory in order, or those of the blocks when there is none |
| CpuInfoCollector.ReadCountField | src/cpu.cc:249-277 | a CPU list, else the number of blocks, else the hardware threads |
| CpuInfoCollector.CountFieldIs | src/cpu.cc:249-277 | a file that lists a set gives its size; one that cannot be read leaves the blocks, then the threads, then its status |
| CpuInfoCollector.FirstExistingHypervisorVendor | src/cpu.cc:143-156 | the first file with a non-empty line |
| CpuInfoCollector.VendorOfIs | src/cpu.cc:143-156 | the first file whose first line is not blank gives the vendor, and none gives not found |
| CpuInfoCollector.VirtualizedIs | src/cpu.cc:377-384 | true exactly when "hypervisor" is a word of the first given flag line; unknown without words |
| CpuInfoCollector.HypervisorVendorIs | src/cpu.cc:386-393 | cpuinfo first, then the files of a virtual machine, else not found |
| CpuInfoCollector.ArchFromMachineIs | src/cpu.cc:17-44 | which machine names stand for which architecture, both ways |
| CpuInfoCollector.CollectCpu | src/cpu.cc:200-396 | every field of the result, with every fallback |
| CpuInfoCollector.CpuFromText | src/cpu.cc:238-245 | what the first block of a rendered cpuinfo says under the keys of each architecture is what the fields hold |
| CpuInfoCollector.SizesFromText | src/cpu.cc:247 | so are both address sizes |
| CpuInfoCollector.CountsFromFiles | src/cpu.cc:249-257 | the sets listed as present, online and possible are counted into their own fields |
| CpuInfoCollector.NamesAreShown | src/json.cc:475-483 | a reader of the printed section finds the names under their keys |
| CpuInfoCollector.CountsAreShown | src/json.cc:485-491 | and the counts |
| CpuInfoCollector.ModelIsShown | src/json.cc:493-499 | and the model |
| CpuInfoCollector.HostIsShown | src/json.cc:501-508 | and the host and topology |
| CpuInfoCollector.CpuIsShown | src/json.cc:475-510 | the section consists of exactly these twenty members |
| CpuInfoCollector.EntryIsShown | src/json.cc:208-219 | a reader of a printed topology entry finds each field under its key |
| CpuInfoCollector.CpuIsHonest | src/cpu.cc:200-396 | for every file system and host, every field down to the topology entries is valid exactly when its status is `ok` |
| CpuInfoCollector.ProductCoversPlacedCpus | src/cpu.cc:329-375 | the bound on the reported product, for whole machines, in terms of their topology entries |
| CacheCollector.ReadCache | src/cache.cc:76-95 | all fields of one index directory |
| CacheCollector.CollectCache | src/cache.cc:65-105 | the entries are, in CPU and listing order, the index directories of all CPUs that are the first with their key, and every index directory of every CPU has an entry with its key |
| CacheCollector.FirstsAreFirstCaches | src/cache.cc:69-101 | the same of the function behind the loops |
| CacheCollector.CandidatesAt | src/cache.cc:69-75 | the candidates are the index directories of every CPU, each once and in order |
| CacheCollector.CacheFromFiles | src/cache.cc:76-95 | each file of an index directory is read into the field of its name |
| CacheCollector.TypeFromTextIs | src/cache.cc:11-27 | the three type names in any letter case, and nothing else |
| CacheCollector.CacheShown | src/json.cc:221-235 | a reader of a printed cache finds each field under its key |
| CacheCollector.FirstsRepresent | src/cache.cc:97-100 | each entry is a candidate and first with its key, each such candidate is an entry, and no two entries share a key |
| CacheCollector.FirstsInOrder | src/cache.cc:97-100 | the entries stand at strictly increasing positions of the candidates |
| CacheCollector.EveryCandidateRepresented | src/cache.cc:97-100 | every candidate has an entry with the same key |
| CacheCollector.KeyIdentifies | src/cache.cc:48-61 | equal keys if and only if level, type, size, and sharing list or CPU agree, or one sharing list spells the other's suffix |
| CacheCollector.KeysDoNotCollide | src/cache.cc:48-61 | when no sharing list contains the separator, keys are equal exactly for the same cache |
| CacheCollector.KeysCollide | src/cache.cc:48-61 | two caches with one key, without that condition |
| CacheCollector.IdentitiesKept | src/cache.cc:97-100 | no two entries have one identity, and a candidate's identity is kept exactly when no entry mimics it or is mimicked by it |
| CacheCollector.CollectedIdentities | src/cache.cc:65-105 | the same for every file system; without the separator in sharing lists every reported cache keeps its identity |
| CacheCollector.CacheLost | src/cache.cc:65-105 | a file system of which the collector drops a different cache |
| CacheCollector.CachesAreHonest | src/cache.cc:65-105 | for every file system, every field of every cache is valid exactly when its status is `ok` |
| IsaCollector.RiscvAnswer | src/isa.cc:66-96 | for every text and letter: true exactly when what follows the first rv32, or else the first rv64, up to an underscore includes the letter or g for it, or a later piece begins with the letter |
| IsaCollector.RiscvReads | src/isa.cc:66-96 | the same for well-formed strings, in terms of their groups and names |
| IsaCollector.RiscvExact | src/isa.cc:66-96 | the answer agrees with the declared extensions exactly under a condition on the first group, the letters that open later groups, and names in h |
| IsaCollector.RiscvMembership | src/isa.cc:66-96 | with one block and names after z, s or x, the answer is membership in the block, or g for i, m, a, f and d, unless a name of a 64-bit string spells rv32; in that case exactly when that name's letters agree |
| IsaCollector.BaseInsideName | src/isa.cc:72-75 | a 64-bit string without I for which the code finds I |
| IsaCollector.LetterMissed | src/isa.cc:94-95 | a string that declares A in a later group, for which the code does not find A |
| IsaCollector.NameMistaken | src/isa.cc:94-95 | a string without H for which the code finds H |
| IsaCollector.SeparatorFollowed | src/isa.cc:95 | the last search succeeds exactly when a later piece begins with the letter |
| IsaCollector.FindInJoin | src/isa.cc:72-85 | searching the whole string is searching its underscore-separated pieces in order |
| IsaCollector.AnyFlag | src/isa.cc:31-39 | true if and only if some name is a flag |
| IsaCollector.CollectIsa | src/isa.cc:100-190 | each status path, and each feature by the flag line in use |
| IsaCollector.FeatureSourceIs | src/isa.cc:17-29 | the flag line in use is the non-empty one of the first family in the order x86, Arm, RISC-V |
| IsaCollector.FeaturesHold | src/isa.cc:126-187 | a feature of the family in use is true exactly when one of its names is a word of the flag line, or its letter is spelled there |
| IsaCollector.NoSource | src/isa.cc:103-122 | without a flag line every field carries the status of that path |
| IsaCollector.IsaIsHonest | src/isa.cc:100-190 | for every file system, every field is truthful; a feature is known exactly when its family's flag line is the one in use, and unsupported otherwise; without a flag line all fields carry the status of the raw flags |
| IsaCollector.IsaShown | src/json.cc:512-576 | a reader of the printed section finds each feature and the raw flags under their keys |
| IsaCollector.IsaRecordIsHonest | src/json.cc:512-576 | the printed ISA section is truthful |
| Inspection.SectionsAreHonest | src/json.cc:383-396 | the printed cpu, isa and cache sections are truthful whatever the other sections say |
| Inspection.CollectJson | python/archspec_inspect/_native.cc:177-181 | for every options value, file system and host, the printed report parses to a tree that conforms to the schema and holds the collectors' tables under "cpu", "isa" and "cache" when they are selected, with truthful fields there; it is truthful throughout if the other sections are |

## Left out

- File, directory and symlink access and the mapping of errors to statuses (src/internal.hh:96-149, 256-293): a file system is a function to read results and sorted listings, so a reader sees one unchanging system; `basename` and the symlink readers are not modelled.
- Readers.CpuDirs: models `std::sort` by an insertion sort, and the equal helper of src/cache.cc:29-46 by the same member.
- CpuInfoCollector.CollectCpu: takes the results of `uname` and `hardware_concurrency` as inputs, requires that contents and listings have a length that fits `size_t`, and does not model the Windows branch.
- Inspection.CollectJson: the sections other than cpu, isa and cache are arbitrary tables, assumed truthful for the conclusion about the whole report only; the OS, memory, PCI, GPU, perf, block, network, thermal, power, virtualization and platform collectors are field copies and short decision tables.
- IsaCollector.CollectIsa: the assignments of features to flags and letters are an ordered table given as a parameter, so the theorems hold for every such table, not for the particular names.
- JsonPrinter.RecordToJson: the key lists of the categories other than cpu, isa and cache are an ordered table in the same way.
- JsonGrammar reads a lone surrogate escape as the three bytes of its code, and does not check that strings are UTF-8; the printer copies bytes from 0x20 upwards and never writes a surrogate escape.
- `to_json(const SystemInfo&)`, the single-category entry points, `to_string(Status)` and text output.
- The command line's option loop and help, CPython's argument parsing, reference counts and interpreter lock, and the iterable branch of the Python category parser.
- `Field::get()` hands out a mutable reference to a field's content; fields are values here.
- The iteration order of `std::set` and `std::map`, on which no result depends.
- Locales other than C, and extensions of `strtoull` beyond ISO C11 such as binary prefixes.
- Exceptions and memory exhaustion.
