# A Dafny model of the GPU litmus-test tooling

This project models two parts of a GPU litmus-testing tool chain and proves
properties of them.

**The SASS optimisation checker** (`optcheck/optcheck.py`) reads the
cuobjdump SASS listing of a compiled litmus test and the test's name. It
then decides whether the compiler kept the test's memory accesses in order
and kept its fences. The test compiler plants a specification in the code:
`IADD32I`/`LOP32I.XOR` instructions whose hexadecimal immediates carry a
tag, an instruction-map index ("type") and a position ("order"). The checker
works in five stages:

1. it extracts and cleans the instruction stream;
2. it decodes the specification items;
3. it groups the items into one chain per thread;
4. it matches each chain in a window of the stream and counts the fences
   between the first and the last match;
5. it compares those counts with the minimum that the test name asks for.

**The log-analysis helpers** (`log-analysis/`) cover:

- the litmus-log entry and its field collector;
- the classification of a test's scope tree and memory map;
- the keyed `Log`/`LogInc` dictionary and the key queries over several logs;
- the log-to-log tools: sum, merge, relation assertion, comparison rows and
  best incantation;
- the HTML navigation state machine, row layout, column bits and chip-name
  stripping of the table generator;
- the generic list and string helpers;
- the `RACE_OPENCL` header rewriter.

## Layout

- **Optimisation checker:** each module has one file.
  - `sass.dfy`: the fixed data.
  - `spec_decode.dfy`: immediates and carrier instructions.
  - `sass_stream.dfy`: the instruction stream.
  - `cluster.dfy`: the chains.
  - `window.dfy`: the window, opcode and register matching, and fence
    counting.
  - `optcheck.dfy`: `check_spec` and the verdict.
  - `greedy.dfy`: the in-order greedy matcher. Both `check` and `collect`
    use it, and the file proves it sound and complete.
- **Log-analysis helpers:**
  - `scope.dfy`: the scope tree, the memory map, `get_mm` and the
    pretty-printers.
  - `entry.dfy`: `LogEntry`, `collect`, `get_short_name` and `check_const`.
  - `logs.dfy`: the `Log` class and the key queries.
  - `log2log.dfy`, `log2tbl.dfy`, `html_file.dfy`, `generic.dfy` and
    `replace_name.dfy`: the tools of the same names.
- **Support:** `strings.dfy` holds the Python `str` operations the tools use,
  `order.dfy` Python's string order and the two sorts, and `wrappers.dfy`
  `Option`/`Result`.

## How the source is represented

- A failing `assert`, `bail_err` or `chk` becomes an error value: `Err(...)`,
  `None` or `ok == false`. The model never stops the process.
- The global `imap` becomes a `Variant` parameter (pre-Maxwell or Maxwell).
- The global `source` and `target` dictionaries are passed in and returned
  as maps.
- Every regular expression the core applies is written out as a scanner
  with the same matching behaviour. For example, line 446 removes the first
  guard anywhere in the line, not only at its start.
- The source loops that update state or accumulate results are `while`/`for`
  loops here, each proved against a function that states its result. The
  search and test loops are recursive functions or quantifiers: `has_ocl`
  (`Window.HasOcl`), the alias loop of `split_mem_inst` (`Window.FirstAlias`),
  the parse actions `f1`/`f2` (`Scope.Act`), the item loop of `get_mm`
  (`Scope.MmItems`), `is_global`/`is_shared` (`Scope.IsGlobal`,
  `Scope.IsShared`), `get_entry` (`Logs.FirstWith`, `Logs.GetEntry`) and
  `Log.verify`/`LogInc.verify` (`Logs.Verifies`).
- The objects the source updates in place are classes:
  - `Logs.Log`, with its keys in insertion order and its dictionary;
  - `HtmlPage.HtmlFile`, with its items, section number, last level and
    navigation lines.
- `check_spec` rewrites the line list in place; `Optcheck.CleanAll` does the
  same on an `array`.
- Line 544 halves the target with `/`, which gives a float in Python 3. The
  model halves in integers. `Optcheck.PluralsEven` shows the halved value is
  always even, so both give the same number.

## Model

| member | source | states |
|---|---|---|
| SpecDecode.TagField | optcheck/optcheck.py:87-88 | the tag field that `isspecn` compares is a 16-bit value |
| SpecDecode.OrdN | optcheck/optcheck.py:90-91 | `getordn` yields a four-bit order |
| SpecDecode.TypN | optcheck/optcheck.py:93-94 | `gettypn` yields an eight-bit type |
| SpecDecode.ImmediateDecodes | optcheck/optcheck.py:87-94 | an immediate built from tag 0x7F3A, a type below 256, an order below 16 and any low nibble (with any higher bits) passes `isspecn` and decodes back to that type and that order |
| SpecDecode.HexStringDigits | optcheck/optcheck.py:266 | the base-16 digit parser reads back the digits written for any natural |
| SpecDecode.HexRoundTrip | optcheck/optcheck.py:266 | `int("0x" + hex digits of n, 16)` is `n` for every natural `n` |
| SpecDecode.TrimmedKeepsOpcode | optcheck/optcheck.py:251-256 | stripping white space and a trailing `;` keeps the carrier opcode an instruction starts with |
| SpecDecode.CarrierOf | optcheck/optcheck.py:249-260 | the carrier found is one of the two carriers and prefixes the trimmed instruction; it is `IADD32I` exactly when the instruction starts with that |
| SpecDecode.CarrierOperands | optcheck/optcheck.py:257-262 | removing the carrier once and splitting on commas gives at least one field |
| SpecDecode.CarrierOfText | optcheck/optcheck.py:249-259 | for a carrier instruction written out from an opcode, a destination, a register and an immediate, trimming gives that text back and the carrier found is that opcode |
| SpecDecode.CarrierOperandsOf | optcheck/optcheck.py:257-262 | such an instruction splits into exactly its three operand fields |
| SpecDecode.SplitCarrier | optcheck/optcheck.py:249-266 | `split_add_inst` of such an instruction returns its immediate `n` and its register operand |
| SpecDecode.GetSpecItem | optcheck/optcheck.py:249-280 | a non-carrier gives no item; a carrier without exactly three comma fields is the operand-count error; a carrier that `split_add_inst` reads as `(n, reg)` gives an item exactly when `n` carries the tag, and that item is `(typ(n), ord(n), reg)`; the only errors are the operand count and an immediate that is not base 16 |
| SpecDecode.UntaggedIgnored | optcheck/optcheck.py:275-277 | a carrier whose immediate lacks the 0x7F3A tag gives no item and no error |
| SpecDecode.CarrierRoundTrip | optcheck/optcheck.py:270-280 | a carrier written with a tagged immediate for type `t` and order `o` decodes to exactly the item `(t, o, register)` |
| Sass.IMap | optcheck/optcheck.py:45-70 | both instruction maps have ten entries, each with at least one opcode and the link operand first |
| Sass.ZeroCounters | optcheck/optcheck.py:78-83 | `source` and `target` start with exactly the three fence categories, each at zero |
| SassStream.InstructionLine | optcheck/optcheck.py:363-364 | a line of white space, `/*`, and text holding a character outside the address class is an instruction line |
| SassStream.EncodingLine | optcheck/optcheck.py:363-364 | a line whose text after `/*` is made only of hex digits, `x`, `X`, `/`, `*` and spaces (an encoding comment) is not an instruction line |
| SassStream.FilterInst | optcheck/optcheck.py:478 | the filtered stream keeps exactly the instruction lines of the input |
| SassStream.CommentAt | optcheck/optcheck.py:483 | finds a `/*...*/` comment, with no `*` or `/` inside, that starts the string, and finds none only when the string starts with no such comment |
| SassStream.StripComments | optcheck/optcheck.py:483 | removing the comments never lengthens a line |
| SassStream.StripCommentsFree | optcheck/optcheck.py:483 | a line without `/*` is left unchanged by the comment removal |
| SassStream.StripLeadingComment | optcheck/optcheck.py:483 | a removable comment at the start disappears and the rest is processed as if alone |
| SassStream.StripWhiteOverComments | optcheck/optcheck.py:483 | leading white space passes through the comment removal unchanged |
| SassStream.CleanAddressedLine | optcheck/optcheck.py:483-485 | an instruction line of white space, an address comment and an instruction cleans to exactly the instruction |
| Window.HasOcUnique | optcheck/optcheck.py:399-402 | at most one of two space-free opcodes can head an instruction, so `ST.E` never matches `ST.E.CG ...` |
| Window.FirstAlias | optcheck/optcheck.py:384-389 | finds the first opcode of the alias list that heads the instruction, and finds none only when none does |
| Window.HasOcl | optcheck/optcheck.py:405-409 | `has_ocl` holds exactly when some opcode of the list heads the instruction |
| Window.SplitMemInstOf | optcheck/optcheck.py:379-396 | an instruction written from one of the opcodes and an operand list is recognised, and `split_mem_inst` returns exactly its operands |
| Window.AliasCut | optcheck/optcheck.py:384-396 | after the matched opcode, the rest is trimmed, split on commas and each field stripped |
| Window.GetMemReg | optcheck/optcheck.py:367-376 | a returned register is an `r`/`R` followed by one or more digits |
| Window.MemRegOf | optcheck/optcheck.py:367-376 | a register name is returned as itself, bare or in brackets |
| Window.MemRegRejects | optcheck/optcheck.py:367-376 | an operand holding a character that is not white space, a bracket, `r`/`R` or a digit gives no register |
| Window.MemCoreSlice | optcheck/optcheck.py:369-372 | the stripped and unbracketed core of an operand is a contiguous slice of it |
| Window.SplitMemInst | optcheck/optcheck.py:379-396 | splitting an instruction that has one of the opcodes gives at least one operand |
| Window.GuardAt | optcheck/optcheck.py:446 | a guard found at a position starts with `@` there and ends at least three characters later, inside the line |
| Window.SwallowPredicate | optcheck/optcheck.py:446 | removing the guard never lengthens a line |
| Window.SwallowNone | optcheck/optcheck.py:446 | a line without `@` is unchanged |
| Window.SwallowFirst | optcheck/optcheck.py:446 | the first `@guard` followed by white space, wherever it is, is removed with that white space and the rest kept |
| Window.FirstGuard | optcheck/optcheck.py:446 | finds the first position where a guard with its white space starts, and finds none only when there is none |
| Window.WindowBottom | optcheck/optcheck.py:433-434 | the window never reaches past the instruction stream |
| Window.Walk | optcheck/optcheck.py:437-471 | a successful walk gives one line per step, inside the stream, with the first no later than the last |
| Greedy.Embed | optcheck/optcheck.py:443-471 | a walk that succeeds places every remaining step |
| Greedy.EmbedSound | optcheck/optcheck.py:443-471 | what the greedy walk returns places every step at a strictly increasing position of the range that the step accepts |
| Greedy.EmbedComplete | log-analysis/machinery.py:377-384 | whenever some placement exists, the greedy walk succeeds and places each step no later than that placement does |
| Greedy.EmbedIff | optcheck/optcheck.py:443-471 | the greedy walk succeeds exactly when a placement exists |
| Window.WalkIff | optcheck/optcheck.py:443-473 | the window walk succeeds exactly when the chain's steps can be placed at strictly increasing lines of `[max(ln-40, 0), min(ln+8, len))` |
| Window.CheckIff | optcheck/optcheck.py:414-473 | `check` returns True exactly when the chain can be placed in its window |
| Window.CheckCounts | optcheck/optcheck.py:460-467 | on success each fence category rises by the number of lines strictly between the first and the last match whose lower-cased text mentions it; on failure, or for a one-step chain, `source` is unchanged |
| Window.CountLine | optcheck/optcheck.py:463-466 | counting one line keeps the same categories |
| Window.AddFences | optcheck/optcheck.py:462-466 | counting a range of lines keeps the same categories |
| Window.FenceLines | optcheck/optcheck.py:462-466 | no more lines mention a category than the range holds |
| Window.CountLineSpec | optcheck/optcheck.py:463-466 | one line raises each category it contains by one and leaves the others alone |
| Window.AddFencesSpec | optcheck/optcheck.py:462-466 | counting over a range of lines raises each category by the number of lines that mention it |
| Window.Check | optcheck/optcheck.py:414-473 | `check` returns the outcome and the updated `source` that the walk specification gives |
| Window.Scan | optcheck/optcheck.py:443-460 | the loop over the window succeeds exactly when the greedy walk does, and reports the walk's first and last matched lines |
| Window.StepHit | optcheck/optcheck.py:444-456 | one window line is accepted exactly when, with its guard removed, it has one of the step's opcodes and the step's register as link operand, read through `get_mem_reg` for memory operands |
| Window.StepAt | optcheck/optcheck.py:444-456 | testing one window line against one step gives exactly the chain's matcher at that step and line |
| Window.CountFences | optcheck/optcheck.py:462-466 | the fence-counting loop computes the counts of the range specification |
| Window.CountLineFences | optcheck/optcheck.py:463-466 | the inner loop over the categories computes one line's count |
| Cluster.DecodedAt | optcheck/optcheck.py:293 | the decoded line list holds `get_spec_item` of each line |
| Cluster.DecodeItems | optcheck/optcheck.py:291-300 | the decoded items have types inside the map and four-bit orders, lie in the lines read so far and appear in increasing line order |
| Cluster.DecodeSound | optcheck/optcheck.py:291-300 | every item is what `get_spec_item` yields for its own line |
| Cluster.DecodeComplete | optcheck/optcheck.py:291-300 | every line read decodes without error, and every line that yields an item is represented by one |
| Cluster.DecodeError | optcheck/optcheck.py:291-297 | a decoding error is accounted for by some line read: that line's own decoding error, or a type outside the map |
| Cluster.SeedsShape | optcheck/optcheck.py:298-300 | there is exactly one one-item chain per order-0 item, in line order |
| Cluster.NoSpecificationIff | optcheck/optcheck.py:303-305 | "No specification found" is raised exactly when there is no order-0 item |
| Cluster.Nearest | optcheck/optcheck.py:325-337 | the chain chosen has the length asked for |
| Cluster.NearestSpec | optcheck/optcheck.py:328-337 | the chosen chain's last item is nearest to the new item among the eligible chains, and strictly nearer than every eligible chain before it, so the lowest index wins a tie; no chain is chosen exactly when none has the length |
| Cluster.NearestTieExample | optcheck/optcheck.py:335 | of two chains at equal distance the first is chosen |
| Cluster.AttachWellFormed | optcheck/optcheck.py:338-342 | attaching an item keeps every chain's `m`-th item at order `m` and keeps the chain heads |
| Cluster.ExtendContents | optcheck/optcheck.py:314-342 | one level's pass adds exactly the items of that order to the chains |
| Cluster.ExtendErrors | optcheck/optcheck.py:338-339 | the only error of a level's pass is "Missing item in order specification" |
| Cluster.LevelsContents | optcheck/optcheck.py:309-343 | when the remaining level passes succeed from chains holding the items of the lower orders, the chains hold exactly the decoded items |
| Cluster.ClusterShape | optcheck/optcheck.py:284-356 | a successful clustering has at least one chain; every chain's `m`-th item has order `m`, the chains are headed in order by the order-0 items, and together they hold exactly the decoded items |
| Cluster.ClusterSpecShape | optcheck/optcheck.py:284-356 | on instruction lines, the chains are headed by the order-0 items in increasing line order and partition the decoded items |
| Cluster.OrderGapExample | optcheck/optcheck.py:346-354 | orders 0, 1 and 3 give "Order gap in specification" |
| Cluster.MissingItemExample | optcheck/optcheck.py:338-339 | two order-1 items for one order-0 item give "Missing item in order specification" |
| Cluster.ClusterSpecs | optcheck/optcheck.py:284-356 | `cluster_specs` computes the clustering specification on the instruction lines |
| Cluster.ClusterItems | optcheck/optcheck.py:303-356 | the level loop with its closing gap check computes the clustering of the decoded items |
| Cluster.SeedPass | optcheck/optcheck.py:285-300 | the first pass decodes the lines and seeds one chain per order-0 item |
| Cluster.SeedLine | optcheck/optcheck.py:292-300 | one line of the first pass either stops it with the error of the whole pass or extends the items and the seeds |
| Cluster.DecodeLine | optcheck/optcheck.py:292-293 | decodes one line as `get_spec_item` does |
| Cluster.LevelPass | optcheck/optcheck.py:312-342 | one level's loop computes that level's pass and reports whether the level had an item |
| Cluster.NearestChain | optcheck/optcheck.py:325-337 | the search loop returns -1 exactly when no chain has the length, and otherwise the nearest chain's index |
| Optcheck.CheckAll | optcheck/optcheck.py:494-506 | folding the checks over the chains keeps the fence categories |
| Optcheck.CheckAllIff | optcheck/optcheck.py:494-506 | the cluster loop's flag is true exactly when every chain can be placed in its window |
| Optcheck.CheckAllCounts | optcheck/optcheck.py:497-504 | after the loop, each fence category holds its start value plus the fences found by all the chains' checks |
| Optcheck.CheckChains | optcheck/optcheck.py:494-506 | the loop over the clusters computes the conjunction of the checks and the accumulated counts |
| Optcheck.CheckSpec | optcheck/optcheck.py:476-506 | `check_spec` fails with too few instructions or with the clustering error, and otherwise returns the cluster loop's result on the cleaned stream |
| Optcheck.CleanStream | optcheck/optcheck.py:482-485 | every line has its comments removed and its white space trimmed |
| Optcheck.CleanAll | optcheck/optcheck.py:482-485 | the in-place rewrite leaves every array cell holding its cleaned line |
| Optcheck.Target | optcheck/optcheck.py:538-544 | the target has exactly the three fence categories |
| Optcheck.TargetAt | optcheck/optcheck.py:538-544 | each category's target is its count in the lower-cased name plus the count of its plural |
| Optcheck.TargetExample | optcheck/optcheck.py:538-544 | `sb-membar.ctass` asks for two `membar.cta` fences and no `membar.gl` fence |
| Optcheck.ComputeTarget | optcheck/optcheck.py:538-544 | the two target loops give each category its count in the lower-cased name plus its plural count, so a plural asks for two fences |
| Optcheck.PluralsEven | optcheck/optcheck.py:539-541 | after the first loop from zero, every category holds an even value, so the halving of line 544 is exact |
| Optcheck.AddPlurals | optcheck/optcheck.py:539-541 | the first loop adds twice the plural count to each listed category and leaves the others |
| Optcheck.SinglesAfterPlurals | optcheck/optcheck.py:542-544 | after both loops from zero, each category holds its count plus its plural count |
| Optcheck.AddSingles | optcheck/optcheck.py:542-544 | the second loop sets each listed category to half its value plus its count |
| Optcheck.CompareTarget | optcheck/optcheck.py:549-552 | the comparison loop clears the flag exactly when some category's target exceeds its observed count |
| Optcheck.Conclude | optcheck/optcheck.py:546-558 | the verdict is the error of `check_spec`, or the cluster flag and every target reached |
| Optcheck.DecideIff | optcheck/optcheck.py:546-558 | starting from zero counters, the verdict passes exactly when every chain is placed and, per category, the fences found reach the target |
| Optcheck.Run | optcheck/optcheck.py:537-558 | the main program computes the verdict function |
| Optcheck.VerdictIff | optcheck/optcheck.py:537-558 | a run passes exactly when the stream has at least six instruction lines, the specification clusters, every chain is placed in its window and every fence target is met |
| Optcheck.VerdictErrors | optcheck/optcheck.py:476-489 | a run ends in an error exactly when the stream holds five instruction lines or fewer, or when clustering fails, and the error is that stage's |
| Scope.ValueIff | log-analysis/machinery.py:110-125 | the parser with `f2` at level `k` and `f1` elsewhere accepts a well-formed tree exactly when its groups have one member each, except at level `k` where each has two or more |
| Scope.ShapeExclusive | log-analysis/machinery.py:612-650 | no tree branches at two different levels |
| Scope.ScopeKinds | log-analysis/machinery.py:612-650 | at most one of `is_thread`, `is_warp`, `is_cta`, `is_ker` and `is_dev` holds, and `is_mixed_scope` holds exactly when none does |
| Scope.IsGlobal | log-analysis/machinery.py:593-597 | `is_global` holds exactly when every space is `global` |
| Scope.IsShared | log-analysis/machinery.py:599-603 | `is_shared` holds exactly when every space is `shared` or `local` |
| Scope.MemKinds | log-analysis/machinery.py:593-606 | both hold exactly for the empty map; `is_mixed_mem` holds exactly when some space is not global and some is neither shared nor local |
| Scope.MmItem | log-analysis/machinery.py:316-323 | a parsed item is a single-letter variable with space `global` or `shared` |
| Scope.MmItems | log-analysis/machinery.py:316-323 | the item list is parsed whole, one pair per item, and fails exactly when some item does |
| Scope.GetMm | log-analysis/machinery.py:306-325 | the map is sorted by variable with normal items, and "no match" is returned exactly when the text does not match the memory-map expression |
| Order.SortByStable | log-analysis/machinery.py:324 | sorting by variable keeps the items of each variable in their original order |
| Scope.SortedItems | log-analysis/machinery.py:324 | sorting the parsed items keeps them normal |
| Scope.GetMmItems | log-analysis/machinery.py:311-324 | the result is a permutation of the items parsed from the comma/semicolon split |
| Scope.PpiMemoryMap | log-analysis/machinery.py:692-700 | the printer writes `var: space` items separated by `, ` |
| Scope.MapName | log-analysis/machinery.py:703-707 | the compact name exists exactly when every space has a short form |
| Scope.PpiMemoryMapName | log-analysis/machinery.py:703-707 | the loop computes the compact name, and fails where `mem_norm` has no entry |
| Scope.MapNameInjective | log-analysis/machinery.py:703-707 | two normal maps with the same compact name are equal |
| Scope.MapNameLength | log-analysis/machinery.py:703-707 | the compact name has two characters per variable |
| LogEntries.ShortName | log-analysis/machinery.py:528-533 | the short name has no `-`, prefixes the name and stops at its first `-` (it is the whole name if there is none); a `-` in a name without `p0`/`P0` is the error |
| LogEntries.ShortNameIdempotent | log-analysis/machinery.py:528-533 | taking the short name twice gives the same result |
| LogEntries.CheckConstIff | log-analysis/machinery.py:273-283 | the check passes exactly when name, short name, kind, stripped scope tree and memory map all agree, in either order and for an entry with itself; a failure names the first field, in that order, in which the entries differ |
| LogEntries.MapOf | log-analysis/machinery.py:377-384 | the dictionary has exactly the keys of the fields that have matched |
| LogEntries.MapOfSize | log-analysis/machinery.py:385-387 | with distinct keys, the dictionary has one key per matched field |
| LogEntries.CollectedIff | log-analysis/machinery.py:371-388 | with distinct keys, `collect` returns a dictionary exactly when the fields can be matched in order on strictly increasing lines |
| LogEntries.CollectedValues | log-analysis/machinery.py:371-388 | the dictionary has exactly the fields' keys, each holding its parser's value on the line it matched |
| LogEntries.Collect | log-analysis/machinery.py:371-388 | `collect` computes the collector specification on the log's lines |
| LogEntries.CollectLines | log-analysis/machinery.py:375-388 | the loop over the lines computes the collector specification |
| LogEntries.CollectLine | log-analysis/machinery.py:377-384 | one line either leaves the awaited field waiting or records its value and moves on, in step with the greedy walk |
| Logs.GetKey | log-analysis/machinery.py:885-888 | a key exists exactly for a non-empty name; a plain log's key is the name, and an incantation log's key extends `name-` |
| Logs.IncKeyText | log-analysis/machinery.py:1011-1018 | an incantation key is the name followed by the four flags, each rendered `True`/`False` and preceded by `-` |
| Logs.GetKeyInjective | log-analysis/machinery.py:1011-1018 | equal keys mean equal names, and in an incantation log equal flags |
| Logs.KeyedVerifies | log-analysis/machinery.py:1030-1033 | a dictionary keyed by `get_key` passes `verify` |
| Logs.GetAll | log-analysis/machinery.py:846-847 | `get_all` lists the entries in key order |
| Logs.Log.constructor | log-analysis/machinery.py:834-835 | a new log is empty |
| Logs.Log.AppendAsWritten | log-analysis/machinery.py:860-864 | `append` as written: the entry goes under its name, and an existing name fails the assertion and changes nothing |
| Logs.Log.Append | log-analysis/machinery.py:860-864 | the entry goes under `get_key(le)` at the end of the key order, and an existing key fails the assertion and changes nothing; a log keyed by `get_key` stays so |
| Logs.AsWrittenIncKeys | log-analysis/machinery.py:860-864 | in an incantation log, an entry stored under its name fails `verify`, and a second incantation of the same test collides with it although their keys differ |
| Logs.Log.Extend | log-analysis/machinery.py:860-864 | building a log key by key: one more append puts one more key in place |
| Logs.Log.Sort | log-analysis/machinery.py:876-877 | `sort` puts the keys in strictly increasing order and keeps the entries |
| Logs.FirstWith | log-analysis/machinery.py:99-103 | the index of the first log holding the key, or the number of logs when none does |
| Logs.GetEntry | log-analysis/machinery.py:97-104 | the entry comes from the first log that has the key, and there is none exactly when no log has it |
| Logs.GetEntryNone | log-analysis/machinery.py:97-104 | no entry exactly when no log has the key |
| Logs.GetEntryFirst | log-analysis/machinery.py:100-103 | when log `i` is the first with the key, its entry is the one returned |
| Logs.AllKeys | log-analysis/machinery.py:131-134 | the union holds exactly the keys of all logs |
| Logs.GetKeysSorted | log-analysis/machinery.py:131-136 | `get_keys` is strictly increasing and holds exactly the keys of all logs |
| Logs.GetKeysDistinct | log-analysis/machinery.py:131-136 | `get_keys` has no duplicates |
| Logs.GetKeysEntry | log-analysis/machinery.py:131-136 | a key is listed exactly when some log has an entry for it, which is exactly when `get_entry` finds one |
| Logs.PosKeys | log-analysis/machinery.py:164-175 | the positive keys are exactly those of the list with a positive entry in some log |
| Logs.PosKeysSorted | log-analysis/machinery.py:168-175 | filtering keeps the keys in list order, so a sorted list stays sorted |
| Logs.GetPosKeys | log-analysis/machinery.py:164-175 | `get_pos_keys` computes the positive keys of the given or the collected key list |
| Logs.AnyPos | log-analysis/machinery.py:170-174 | the inner loop finds a positive entry exactly when some log has one |
| Logs.FilteredKeys | log-analysis/machinery.py:152-161 | the filtered keys are exactly those whose first entry passes the filter; a key no log has fails the lookup's assertion |
| Logs.GetFilteredKeys | log-analysis/machinery.py:152-161 | `get_filtered_keys` computes the filtered keys of the given or the collected key list |
| Logs.FilterKeys | log-analysis/machinery.py:156-161 | the loop over the keys computes the filtered keys |
| Logs.FilteredAllKeys | log-analysis/machinery.py:154-161 | over the collected keys, the lookup never fails |
| Logs.KeptAll | log-analysis/log2log.py:102-111 | when every key has an entry, all keys are appended in order |
| Log2Log.SumToCounts | log-analysis/log2log.py:299-302 | over entries with `total = pos + neg`, the summed total is the summed pos plus the summed neg |
| Log2Log.SummedEntry | log-analysis/log2log.py:283-302 | a kept key's sum entry has the summed counts, `total = pos + neg`, and is consistent with every entry of the key |
| Log2Log.SumDrop | log-analysis/log2log.py:294-298 | a key is dropped exactly when some log's entry for it is inconsistent with the first entry |
| Log2Log.SummedTable | log-analysis/log2log.py:280-305 | the sum log holds a key exactly when it was not dropped, with its summed entry |
| Log2Log.SumKey | log-analysis/log2log.py:291-303 | the inner loop breaks exactly when some log's entry is inconsistent, and otherwise yields the first entry with the summed counts |
| Log2Log.SumStep | log-analysis/log2log.py:292-302 | one log's turn adds its counts for the key, or breaks at an inconsistent entry |
| Log2Log.SumInto | log-analysis/log2log.py:280-305 | one key's turn appends its sum entry unless the key is dropped |
| Log2Log.SumValues | log-analysis/log2log.py:276-307 | the result holds, in key order, the summed entry of every key that is not dropped, keyed by `get_key` |
| Log2Log.SumHlp | log-analysis/log2log.py:272-307 | fewer than two logs is the error; otherwise the sum log as above, of the inputs' kind |
| Log2Log.MergedTable | log-analysis/log2log.py:102-111 | the merged log holds every key of the union, with the entry of the first log that has it |
| Log2Log.AppendFirst | log-analysis/log2log.py:105-111 | the first log with the key supplies the entry; later ones are dropped |
| Log2Log.MergeInto | log-analysis/log2log.py:103-111 | one key's turn appends its first entry |
| Log2Log.MergeValues | log-analysis/log2log.py:98-111 | the merged log's keys are the sorted union, each with its first entry |
| Log2Log.Merge | log-analysis/log2log.py:93-114 | fewer than two logs is the error; otherwise the merged log as above |
| Log2Log.AssertRelation | log-analysis/log2log.py:203-242 | the assertion fails exactly when some key that both logs have breaks the chosen relation (equal, weaker-or-equal, stronger-or-equal) |
| Log2Log.RelationDuality | log-analysis/log2log.py:225-236 | asserting weaker-or-equal of the two logs fails exactly when asserting stronger-or-equal of the swapped logs fails, and asserting equal fails exactly when asserting weaker-or-equal fails or asserting stronger-or-equal fails, which is also exactly when asserting both at once fails |
| Log2Log.CmpKeys | log-analysis/log2log.py:164-198 | a key gets a row exactly when `all` is set, or when the weaker, stronger or equal condition is asked for and holds |
| Log2Log.CmpKeysSorted | log-analysis/log2log.py:155-164 | the rows follow the sorted key order |
| Log2Log.CmpRow | log-analysis/log2log.py:165-198 | one key's turn writes a row exactly when the selection holds |
| Log2Log.CmpRows | log-analysis/log2log.py:155-198 | the rows are those of the selected keys of the union, in order |
| Log2Log.WeakerRowsBreakStronger | log-analysis/log2log.py:176-182 | for a key that both logs have, `cmp` with only the weaker flag writes a row for that key exactly when its first entry is positive and its second entry is not |
| Log2Log.Named | log-analysis/log2log.py:259 | the filter keeps exactly the entries with the name |
| Log2Log.MaxByPos | log-analysis/log2log.py:261 | `max` by `pos` returns the first entry of the greatest `pos` |
| Log2Log.BestOf | log-analysis/log2log.py:259-261 | the best entry of a name exists exactly when some entry has the name, has that name, and has a `pos` at least that of every entry of the name |
| Log2Log.BestTable | log-analysis/log2log.py:258-262 | every name gets its best entry in the output |
| Log2Log.BestNamed | log-analysis/log2log.py:249-262 | every long name of a valid incantation log has a best entry, with a non-empty name |
| Log2Log.Best | log-analysis/log2log.py:245-265 | the plain output log has exactly one entry per long name, in the order given, namely its best entry |
| Log2Tbl.FillUp | log-analysis/log2tbl.py:383-391 | the loop computes the row layout |
| Log2Tbl.FilledRows | log-analysis/log2tbl.py:383-391 | the text is the concatenation of the rows, each joined by the separator and ended by `end` |
| Log2Tbl.RowsCount | log-analysis/log2tbl.py:386-390 | there are `ceil(len / nl)` rows, and none for an empty list |
| Log2Tbl.RowsFlatten | log-analysis/log2tbl.py:386-390 | the rows hold the cells in order, followed by the padding of the last row |
| Log2Tbl.RowsWidth | log-analysis/log2tbl.py:387-389 | every row, padded, has `nl` cells |
| Log2Tbl.RowCells | log-analysis/log2tbl.py:388-389 | when no cell holds the separator character, each row splits back into exactly its `nl` cells, so it holds `nl - 1` separators |
| Log2Tbl.ColumnBits | log-analysis/log2tbl.py:630-634 | the four values are bits and `i = 8*i1 + 4*i2 + 2*i3 + i4` |
| Log2Tbl.ColumnsCover | log-analysis/log2tbl.py:630-639 | each combination of the four filters is selected by exactly one of the sixteen columns |
| Log2Tbl.BaseName | log-analysis/log2tbl.py:543 | the base name ends the path, has no `/`, and is preceded by a `/` when shorter |
| Log2Tbl.Root | log-analysis/log2tbl.py:547 | `splitext` keeps the path or cuts it at a `.` |
| Log2Tbl.RootChanges | log-analysis/log2tbl.py:547-549 | `splitext` changes a base name exactly when it has an extension |
| Log2Tbl.StripAllFixpoint | log-analysis/log2tbl.py:546-550 | the stripping ends at a fixpoint of `splitext` that prefixes the name |
| Log2Tbl.ChipName | log-analysis/log2tbl.py:543-551 | the loop computes the fully stripped base name |
| Log2Tbl.ChipNameNoExt | log-analysis/log2tbl.py:543-551 | the chip name has no extension and no `/` |
| HtmlPage.HtmlFile.constructor | log-analysis/log2tbl.py:56-60 | a new page has no items, section 0, level -1 and only the title in its navigation |
| HtmlPage.Closing | log-analysis/log2tbl.py:83-85 | closing from one level to a lower one writes one `</ul>` per level, and nothing otherwise |
| HtmlPage.HtmlFile.Emit | log-analysis/log2tbl.py:62-85 | writing one navigation line that keeps the nesting depth non-negative appends it and keeps the lists nested |
| HtmlPage.HtmlFile.CloseNav | log-analysis/log2tbl.py:81-85 | writes `max(0, last - level)` closing lines and leaves the level at `min(last, level)`, keeping one open list per level |
| HtmlPage.HtmlFile.AddNavItem | log-analysis/log2tbl.py:62-79 | a level at most one below the last adds the opening or closing lines it needs and exactly one link, and sets the level; a skipped level fails the assertion and changes nothing |
| HtmlPage.HtmlFile.NewSection | log-analysis/log2tbl.py:87-94 | a level outside 0..2 fails first and changes nothing; otherwise the heading item is added with the anchor of the nav link, then the nav item, and when that succeeds the section number rises by one |
| HtmlPage.HtmlFile.AddHtml | log-analysis/log2tbl.py:96-97 | the text is appended to the items and nothing else changes |
| HtmlPage.HtmlFile.Finish | log-analysis/log2tbl.py:99-105 | every open list is closed, leaving the navigation balanced, and the page is the prefix, the navigation if asked for, the items and the suffix |
| HtmlPage.Example | log-analysis/log2tbl.py:56-100 | two nested sections and `finish` give an opened and fully closed navigation |
| Generic.Interleaved | log-analysis/generic.py:30-38 | the result has `len(l1) + len(l2)` elements |
| Generic.Interleave | log-analysis/generic.py:30-38 | the loop computes the chunked interleaving |
| Generic.InterleaveShuffle | log-analysis/generic.py:30-38 | the elements taken from each side are exactly that input, in its order |
| Generic.InterleaveLeft | log-analysis/generic.py:32-37 | with the second list empty, the first comes back whole |
| Generic.InterleaveRight | log-analysis/generic.py:32-37 | with the first list empty, the second comes back whole |
| Generic.LjCut | log-analysis/generic.py:55-57 | for `n >= 0` the result has length `n`, the first characters of `s` then spaces; a negative `n` cuts `-n` characters from the end |
| Generic.LjCutIdempotent | log-analysis/generic.py:55-57 | cutting twice to the same width changes nothing |
| Generic.DupChkIff | log-analysis/generic.py:59-63 | `dupchk` holds exactly when some element occurs twice |
| Generic.ElemsCard | log-analysis/generic.py:60-61 | the set is no larger than the list, and as large exactly when there are no duplicates |
| Generic.Listify | log-analysis/generic.py:43-46 | a list is returned unchanged and a value is wrapped in a singleton |
| Generic.Itemify | log-analysis/generic.py:48-52 | a value passes through; a list gives its element exactly when it has one |
| Generic.ListifyItemify | log-analysis/generic.py:43-52 | unwrapping a wrapped value gives the value back, and wrapping is idempotent |
| ReplaceName.Search | log-analysis/aux/replace-name.py:13 | finds the leftmost match of `/[^ \t%]+.litmus`, at its longest (greedy) extent, and none only when there is none |
| ReplaceName.NameOf | log-analysis/aux/replace-name.py:13-20 | the derived name contains no `-` |
| ReplaceName.NameOfErrors | log-analysis/aux/replace-name.py:13-14 | the search assertion fails exactly when the expression matches nowhere in the line |
| ReplaceName.NameNoChar | log-analysis/aux/replace-name.py:17-20 | the name holds no character that the line lacks, except the `_` that replaced a `-` |
| ReplaceName.FirstFaultIff | log-analysis/aux/replace-name.py:12-21 | the run fails exactly when some `% Results` line yields no name |
| ReplaceName.HeaderNotResults | log-analysis/aux/replace-name.py:12-26 | a `RACE_OPENCL` line is never a `% Results` line |
| ReplaceName.Advance | log-analysis/aux/replace-name.py:11-27 | each line adds its own output line, and only a `% Results` line with a name changes the current name |
| ReplaceName.OutLines | log-analysis/aux/replace-name.py:11-27 | there is one output line per input line |
| ReplaceName.SplitOutLines | log-analysis/aux/replace-name.py:29 | when no input line holds a line break, splitting the `\n`-joined output gives the output lines back |
| ReplaceName.RunLines | log-analysis/aux/replace-name.py:8-29 | the output has one line per input line: a `RACE_OPENCL` line becomes `RACE_OPENCL ` and the name of the latest `% Results` line (empty before any), and every other line is copied |
| ReplaceName.Run | log-analysis/aux/replace-name.py:6-29 | the loop computes the rewrite, or the first failing assertion |

## Left out

- SpecDecode.ParseHexInt: accepts only ASCII hexadecimal digits, whereas Python's `int(s, 16)` also accepts other Unicode decimal digits; the immediates in a cuobjdump listing are ASCII, so no carrier is read differently.
- The command-line and I/O parts are not modelled:
  - `handle_args`/`usage`, the cuobjdump subprocess, file and pickle I/O;
  - every `print`, the `sys.exit` codes and the `mux`/argparse plumbing;
  - `chk`/`bail` stack inspection, which is modelled as an error value.
- The main program's verdict is a `Result`: `Ok(true)` for `!!SUCCESS!!`, `Ok(false)` for `!!FAILURE!!` and `Err` for an abort.
- `skip_nested` and `eat` in optcheck.py are not modelled; no other code calls them.
- The line extractors of a log entry are not modelled:
  - the regex extractors (`get_name`, `get_st`, `get_nums`, the flag extractors) and `extract`/`try_list` are not modelled;
  - `Field` stands for any line parser, each of which says whether it matched and with what value;
  - `fix_name`, `fix`, `from_string`'s splitting and `get_matching_keys` are not modelled either.
- The scope tree is converted to the datatype `Scope.Node` before the predicates are applied. The pyparsing grammar is replaced by `Scope.WellFormed`, and the text-to-tree parse is not modelled.
- The entry's `raw`, `raw_fixed` and `parent` fields are not modelled. No property here depends on them.
- `convert`, `avg_hlp`, `ppi_num` and `pp_num` are not modelled, because they use floating-point division and rounding.
- The text of `cmp` rows (`ljcut` column formatting and `ppi_num`) is not modelled. `Log2Log.CmpKeys` states which keys get a row.
- `get_names`, `get_long_names` and `any_key` are not modelled. Their set results are parameters of the members that use them.
- `Strings.Lower` lower-cases ASCII letters only. The names and listings the tools read are ASCII.
- The HTML template text appears only as the `prefix` and `suffix` parameters of `HtmlPage.HtmlFile.Finish`, and `write` is not modelled.
- The navigation is held as `NavLine` lines. `HtmlPage.TextAppend` shows the text they render is the string `nav`.
- The queries over several logs read the logs' values, `Logs.LogValue`, since they change nothing.
- Scope.GetMm: the `IndexError` of an item without `:` is folded into the error value for a bad space.
- Optcheck.CheckSpec: the two `print`s of the clusters are not modelled.
- Cluster.ClusterSpecs: later passes reuse the first pass's decoded items instead of decoding every line again. Decoding is deterministic, so the result is the same.
- Greedy.EmbedComplete: it is cited at `collect` as well as at `check`, because both use the one greedy walk.
- Log2Log.SumKey: the assertion `le.total == le.pos + le.neg` (log2log.py:301) is not checked in the loop. `Log2Log.SummedEntry` takes it as the precondition `WellCounted`, which entries parsed by `LogEntry` meet.
- Log2Log.Best: the order of the names (`list(set(...))`) is a parameter. Any listing of the distinct long names is admitted, because Python leaves set order open.
- Logs.Log.Append: a failed assertion is modelled as `ok == false` with the log unchanged.
- Log2Log.SumHlp: builds its output with the corrected `Logs.Log.Append` (see Findings). As written, with `-i`, two incantations of one test name make the second append's assertion fail and abort the run. The model returns a log keyed by `get_key` instead.
- Log2Log.SumValues: built on the corrected `Logs.Log.Append`, so it does not model the abort on two incantations of one name (see Findings).
- Log2Log.SumInto: appends through the corrected `Logs.Log.Append`, so it does not model the abort on two incantations of one name (see Findings).
- Log2Log.Merge: builds its output with the corrected `Logs.Log.Append`. As written, with `-i`, two incantations of one test name abort the run. The model returns the merged log keyed by `get_key` (see Findings).
- Log2Log.MergeValues: built on the corrected `Logs.Log.Append`, so it does not model the abort on two incantations of one name (see Findings).
- Log2Log.MergeInto: appends through the corrected `Logs.Log.Append`, so it does not model the abort on two incantations of one name (see Findings).
- Log2Log.AppendFirst: appends through the corrected `Logs.Log.Append`, so it does not model the abort on two incantations of one name (see Findings).
- Log2Tbl.RowCells: the split-back property is stated for a one-character separator only. The tools pass ` & `, and with a separator of several characters a cell can contain part of it: cells `a &` and `b` join to `a & & b`, which splits as `a` and `& b`. For any separator, `Log2Tbl.FilledRows` and `Log2Tbl.RowsWidth` give every row as its `nl` cells joined by the separator.
- Log2Tbl.FillUp: requires `nl > 0`. With `nl <= 0` and a non-empty list, the source loops forever, because for `nl <= 0` the slice `l[nl:]` of a non-empty list is never empty. The callers pass a positive width.
- HtmlPage.HtmlFile.AddNavItem: requires `level >= 0`. Its only caller, `new_section`, checks `0 <= level <= 2` first.
- HtmlPage.HtmlFile.CloseNav: requires `level >= -1`. The source calls it only with `-1` or with a level of `add_nav_item`.
- Generic.Interleave: requires `n > 0`. With `n == 0` the source loops forever on non-empty input.
- SpecDecode.TagField, SpecDecode.OrdN, SpecDecode.TypN: their own contracts give ranges only. `SpecDecode.ImmediateDecodes` states the decoding.
- Window.SwallowPredicate: its own contract gives a length bound only. `Window.SwallowNone` and `Window.SwallowFirst` state what it removes.
- Window.WindowBottom: its own contract gives the bound only. `Window.WalkIff` states the whole window.
- Window.CountLine, Window.AddFences, Window.FenceLines: their own contracts give the categories and a bound only. `Window.CountLineSpec` and `Window.AddFencesSpec` state the counts.
- Optcheck.CheckAll, Optcheck.Target: their own contracts give the categories only. `Optcheck.CheckAllIff`, `Optcheck.CheckAllCounts` and `Optcheck.TargetAt` state the rest.
- Greedy.Embed: its own contract gives the length only. `Greedy.EmbedSound` and `Greedy.EmbedComplete` state the rest.
- Window.SplitMemInst, Window.GuardAt: their own contracts are bounds only. `Window.SplitMemInstOf`, `Window.AliasCut` and `Window.SwallowFirst` state what they compute.
- SassStream.StripComments: its own contract is a length bound only. `SassStream.StripCommentsFree`, `SassStream.StripLeadingComment`, `SassStream.StripWhiteOverComments` and `SassStream.CleanAddressedLine` state what it removes.
- SassStream.FilterInst: the contract states membership both ways, not the preserved order. The order follows from the definition.
- ReplaceName.NameOf: its own contract states the absence of `-` only. `ReplaceName.NameOfErrors` and `ReplaceName.NameNoChar` state the rest.

## Findings

| source | as written | input that shows it | evidently intended | confidence | as-written member | corrected member |
|---|---|---|---|---|---|---|
| log-analysis/machinery.py:860-864 | `Log.append` stores the entry under `le.name`. `LogInc` inherits it, although `LogInc.get_key` (1011-1018) and `LogInc.verify` (1030-1033) key entries by name and flags, as `from_string` (952) does | an incantation log built by `sum_hlp` or `merge` from two entries with the same name and different `barrier` flags: the second append hits `assert(not(self.get(key)))`, and a log holding only the first one fails `verify` | `append` keys by `self.get_key(le)` | not executed | Logs.Log.AppendAsWritten, Logs.AsWrittenIncKeys | Logs.Log.Append |
