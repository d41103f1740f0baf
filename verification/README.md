# r4r, verified

r4r runs an R program under a tracer, works out which files it used, sorts them into Debian
packages, R packages and plain files, and writes a Dockerfile that rebuilds the environment.
This project models the algorithms between the tracer and the Dockerfile and proves what they
promise. `dafny verify dfyconfig.toml` checks all of it.

Each component has its own module. Code that changes state in the program is a class or a method
with loops here, proved against functions on values; the promises are lemmas about those
functions.

| files | component | main results |
|---|---|---|
| `packages`, `rpkg_planner`, `plan_properties` | the dependency planner: recursive traversal of the package graph, levels, cycle detection | exact cycle detection, termination on every graph, levels are longest chains, no layering is shorter |
| `batches`, `batch_properties`, `install_task` | cutting the plan into parallel batches, and the two tasks that use it | dependencies in strictly earlier batches, each package once, batch count and total, closing the request changes neither plan nor failure |
| `splitting`, `rpkg_parser`, `rpkg_lines`, `rpkg_database`, `dpkg_database` | reading the package tables and indexing them by path | exactly what each line means, printed tables read back, the parsed graph is closed, lookups find the owning package, exact conditions |
| `trie_model`, `trie_lookup`, `filesystem_trie`, `trie_iterator` | the heap trie, its lookups, its explicit-stack iterator and the copy constructor | refinement of a finite map, when the prefix lookup is longest-prefix match, faithful copies, size bounds |
| `paths`, `path_properties` | paths as text | the parts of every spelling, when two spellings are one path, their order |
| `text`, `manifest*` | the manifest file: line prefixing filter, sections, reader and loader | exactly which texts are read and as what, normal form, exact condition of the round trip |
| `decimal`, `json_*` | the JSON parser and printer | exact accepted language, parsing undoes printing, white space, repeated keys |
| `file_tracer`, `file_tracer_records`, `file_tracer_properties` | interleaved entries and exits of system calls | exactly which files and links a trace records, and with what; exactly when an exception is raised |
| `symlink_resolver` | the work list over symbolic links | exactly which names are found, exact condition of termination, identity |
| `resolvers`, `resolve_task` | the three resolver stages, over the databases and followed by the installation | conservation of files, results untouched, what is recorded can be installed |
| `default_image_files` | the cache of an image's files | exactly which lines are read, save and load, exact condition |
| `argparser`, `argparser_properties` | the command line | indifference to spelling, verbatim positionals, refusals |
| `shell_quoting` | quoting for the shell | inverse of POSIX.1-2017 token recognition and quote removal (sections 2.2.1 to 2.2.3, 2.3 and 2.6.7 of the Shell Command Language) |

Strings are sequences of bytes. `collections`, `options` and `ordering` hold what several modules share.

Where the code does not do what one would expect, the code is followed:

- the prefix lookup of the trie reads the deepest existing node, not the deepest one with a value
  (`TrieLookup.LongestUnlessShadowed` says when that is the same, `TrieLookup.SiblingHidesOwner`
  shows a case where it is not);
- a bounded split lets one empty field after the last one pass;
- the JSON parser accepts a comma before a closing bracket, any character in place of the quote
  that opens a key, and leading zeros, but no white space after the top-level value, against
  sections 2 and 4 to 7 of RFC 8259;
- saving and loading a manifest loses paths with a comment sign, outer white space or a leading
  quote;
- a successful `execve` whose image cannot be looked at any more makes the tracer throw;
- a bare `--` is taken for an option without a short or long name, and a default does not satisfy a
  required option;
- in double-quote mode a backslash in front of `!` survives quote removal.

## Model

| member | source | states |
|---|---|---|
| Packages.ChainDescends | src/rpkg_database.h:476-500 | On a level map that is locally right, every dependency chain stays inside the map, strictly loses level, never repeats a package and is no longer than its head's level allows |
| Packages.LevelIsLongestChain | src/rpkg_database.h:476-503 | A locally right level is the length of the longest dependency chain from that package, no more and no less |
| Packages.ReachStaysInside | src/rpkg_database.h:490-503 | The recorded packages are closed under reachability, and no dependency sits above the package that reaches it |
| Planner.Traversal.DfsVisit | src/rpkg_database.h:473-504 | The traversal ends on every map; it reports a cycle only when its trail runs into one and a missing package only when its trail reaches a hole; otherwise the stack set is as before, exactly the packages reachable from its argument are recorded in addition, at locally right levels, and the running maximum is the highest level |
| Planner.VisitRequest | src/rpkg_database.h:302-311 | Visiting the request in name order records exactly the reachable packages, leaves the stack set empty, and fails only for a reachable cycle or hole |
| Planner.FillLevels | src/rpkg_database.h:313-321 | Every recorded package lands in the list of its level and nowhere else, each list sorted by name without repeats |
| Planner.GetInstallationPlan | src/rpkg_database.h:294-323 | For a closed package map the call throws exactly when a cycle is reachable from the request and never fails its consistency check; otherwise the result is a plan: level i holds exactly the reachable packages whose longest chain has i steps |
| Planner.ClosedHasNoHole | src/rpkg_database.h:479-484 | A map closed under dependencies has no reachable missing package, so the check on a found dependency cannot fail |
| PlanProperties.DependenciesFirst | src/rpkg_database.h:294-323 | Every transitive dependency of a listed package is listed in a strictly earlier level |
| PlanProperties.DependencyIsLower | src/rpkg_database.h:499-503 | A dependency's longest chain is strictly shorter than that of the package that needs it |
| PlanProperties.ListedOnce | src/rpkg_database.h:313-321 | A reachable package occupies exactly one position of the whole plan, an unreachable one none |
| PlanProperties.Spine | src/rpkg_database.h:313-321 | A non-empty request has one chain with a package on every level of the plan |
| PlanProperties.NoLevelEmpty | src/rpkg_database.h:313-316 | No level of the plan for a non-empty request is empty |
| PlanProperties.FewestLevels | src/rpkg_database.h:294-323 | Any layering of the reachable packages that puts dependencies strictly earlier has at least as many layers as the plan |
| PlanProperties.PlanUnique | src/rpkg_database.h:294-323 | Requests that reach the same packages have the same plan, so hash order does not show |
| PlanProperties.PlanIgnoresClosure | src/tracer.h:358-377 | Whatever reachable packages are added to the request, what is a plan before is a plan after, and the other way round |
| PlanProperties.FailureIgnoresClosure | src/tracer.h:358-377 | Adding reachable packages to the request brings neither a cycle nor a missing package into reach, and takes none out of reach |
| Batches.ScriptBuilder.Build | src/install_r_package_builder.h:27-39 | With a limit of zero, and then without an output, the build is refused and nothing changes; otherwise the expanded plan is the specified one and the announced total is the number of packages in it |
| Batches.ScriptBuilder.ExpandPlan | src/install_r_package_builder.h:42-67 | The batches are the levels without base packages, cut into pieces of at most the limit, levels left empty being skipped |
| Batches.ScriptBuilder.PushPieces | src/install_r_package_builder.h:52-65 | The index loop appends exactly the consecutive chunks of one level |
| Batches.ScriptBuilder.EraseBase | src/install_r_package_builder.h:47-50 | What is left of a level are its non-base packages in order |
| Batches.ScriptBuilder.FooterTotal | src/install_r_package_builder.h:218-222 | The footer's number is the number of packages over all batches |
| Batches.ChunksFaithful | src/install_r_package_builder.h:55-64 | Chunks concatenate to the level they were cut from, none is empty and none exceeds the limit |
| Batches.ChunkCount | src/install_r_package_builder.h:55-64 | A level is cut into its size divided by the limit, rounded up, pieces |
| BatchProperties.DependenciesInEarlierBatches | src/install_r_package_builder.h:42-67 | Every transitive non-base dependency of a batched package is in a strictly earlier batch |
| BatchProperties.BatchedExactlyOnce | src/install_r_package_builder.h:42-67 | The batches hold exactly the reachable non-base packages, each once, and their number is the footer total |
| BatchProperties.BatchesBounded | src/install_r_package_builder.h:52-65 | Every batch is non-empty and within the limit |
| BatchProperties.BatchCount | src/install_r_package_builder.h:42-67 | The number of batches is the sum over the levels of the non-base size divided by the limit, rounded up |
| InstallTask.GetDependencies | src/rpkg_database.h:283-292 | The dependency list is the plan written out level by level; it fails exactly when planning does |
| InstallTask.CloseRPackages | src/tracer.h:358-377 | Closing succeeds exactly when no cycle and no missing package is in reach; the manifest then gains exactly the reachable non-base packages, and the reported ones are those that need compilation; a failed plan changes nothing |
| InstallTask.InstallRPackages | src/tracer.h:585-609 | End to end: a non-empty request gives a script exactly when no cycle and no missing package is in reach, with batches in which every package to install occurs exactly once and strictly after all its dependencies, none empty or above 24, with the right total |
| InstallTask.ClosingChangesNothing | src/tracer.h:358-377 | Whether or not the closing task has run, the plan, the packages to install and the reasons to fail are the same |
| InstallTask.CloseThenInstall | src/tracer.h:358-377 | The two tasks in a row: when closing succeeds on a non-empty request installing succeeds, with exactly the batches of the plan before closing; on a closed map only a reachable cycle makes closing fail |
| Splitting.FindMeaning | src/util.h:211-220 | A search result is the first place where the delimiter occurs, and a failed search means it occurs nowhere |
| Splitting.SplitOfJoin | src/default_image_files.h:132-144 | Splitting undoes joining for fields that are free of a delimiter that does not overlap itself |
| Splitting.JoinOfSplit | src/default_image_files.h:132-144 | Joining undoes splitting, and no piece holds the delimiter |
| Splitting.FirstUnfreeIsCut | src/default_image_files.h:132-144 | The first field that does hold the delimiter comes back strictly shorter |
| Splitting.SplitNExactly | src/util.h:211-238 | A line of fields is accepted exactly when it has n of them, or n and one more empty one, and then the first n come back |
| Splitting.StringSplitN | src/util.h:211-238 | The array-filling loop computes that bounded split |
| Splitting.Tokens | src/default_image_files.h:132-144 | The unbounded tokeniser loop computes the full split |
| RpkgParser.EntryName | src/rpkg_database.h:443-458 | One dependency reads as its bare name, whatever white space surrounds it and whatever version constraint follows |
| RpkgParser.FieldOfEntries | src/rpkg_database.h:434-471 | A comma-separated field reads as exactly the set of its entries' names, R itself left out |
| RpkgParser.ParseDependencyField | src/rpkg_database.h:434-471 | The character loop adds exactly the names of the field's comma-separated pieces to the target |
| RpkgParser.LineReads | src/rpkg_database.h:344-394 | A padded line of twelve delimiter-free fields reaches the record as these fields in order; what the record makes of them is stated by RpkgLines.FieldsDescribe |
| RpkgParser.ParseLine | src/rpkg_database.h:344-394 | One line gives its package, or nothing when it is blank, has the wrong number of fields or an incomplete GitHub origin |
| RpkgLines.FieldExactly | src/rpkg_database.h:434-471 | A dependency field names exactly the packages that some comma-separated piece of it has as an entry: white space, a name, perhaps a version constraint; a field NA names none, and R is never one |
| RpkgLines.FieldsDescribe | src/rpkg_database.h:360-392 | Which field goes where: name, library and version are the first three, the dependencies those named in the next three, base and compilation are the words base and yes, and the last four give GitHub, in any case, with HEAD for a missing reference, or else CRAN; nothing is read exactly when a GitHub origin lacks organisation or name |
| RpkgLines.LineExactly | src/rpkg_database.h:344-394 | A line gives a package exactly when it holds twelve fields, or those and one empty field, between no-break spaces with white space around, and these fields describe that package |
| RpkgLines.DroppedExactly | src/rpkg_database.h:347-357 | A line is dropped exactly when it does not hold twelve fields or its GitHub origin is incomplete |
| RpkgLines.RowReads | src/rpkg_database.h:344-394 | A package written out field by field, dependencies with any padding and version constraints, is read back as it was |
| RpkgLines.TableReads | src/rpkg_database.h:341-411 | A printed table is read back: the packages of its rows and no others, each as its row says, without the dependencies that have no row |
| RpkgParser.CollectKeepsFirst | src/rpkg_database.h:393 | Of several lines with one name the first is kept, and packages already present win over all lines |
| RpkgParser.ParsedMeaning | src/rpkg_database.h:341-407 | A package is in the map exactly when some line describes it; it is as its first line says, with exactly the named dependencies that are themselves in the map |
| RpkgParser.ParsedIsClosed | src/rpkg_database.h:396-406 | After parsing, every package is stored under its own name and every dependency is stored |
| RpkgParser.ParseRPackages | src/rpkg_database.h:341-407 | The reading loop and the erasing loop compute that map for every text |
| RpkgDatabases.BuildFilesDb | src/rpkg_database.h:332-339 | In whatever order packages come, the index holds one insertion per package, at its directory |
| RpkgDatabases.OwnsMeaning | src/rpkg_database.h:332-339 | In terms of the texts: a package owns the paths that start at the root as its library does and whose non-empty pieces begin with those of its library and of its name, an absolute name replacing the library |
| RpkgDatabases.OwnsItsDirectory | src/rpkg_database.h:332-339 | A package owns everything at or below its own directory in its library and nothing in another directory of that library |
| RpkgDatabases.InstalledFileFound | src/rpkg_database.h:218-222 | From the printed table alone: the lookup of any path at or below library and name of a row gives that row's package, when package directories do not lie in one another |
| RpkgDatabases.RpkgDatabase.FromStream | src/rpkg_database.h:125-136 | The database holds the parsed packages and an index over exactly these |
| RpkgDatabases.RpkgDatabase.LookupByPath | src/rpkg_database.h:218-222 | In every database a package that is found is stored and is the one of the nearest directory at or above the path; none is found exactly when another directory shadows the path or no package owns it, and no path is shadowed when no package lies below another |
| RpkgDatabases.RpkgDatabase.InstallationPlan | src/rpkg_database.h:294-323 | On a parsed database planning never fails its consistency check and throws exactly for a reachable cycle |
| RpkgDatabases.ApartNeverShadows | src/rpkg_database.h:332-339 | When no package directory lies in another one, no path is shadowed |
| RpkgDatabases.NearestOwnerFound | src/rpkg_database.h:218-222 | A longest-prefix match over the index is the package of the deepest directory at or above the path |
| DpkgDatabases.EntriesMeaning | src/dpkg_database.h:100-115 | A list file records exactly the paths of its non-empty lines, all for its own package |
| DpkgDatabases.ListedLine | src/dpkg_database.h:108-114 | A path is listed exactly when some non-empty line of the list file spells it |
| PathProperties.PartsOfSpelling | src/filesystem_trie.h:154-164 | Whatever the runs of separators before, between and after them, the parts of a path are its names, with the root in front exactly if a separator is |
| PathProperties.EveryPathSpelled | src/filesystem_trie.h:154-164 | Every text is names and separators in this way |
| PathProperties.NamesArePieces | src/filesystem_trie.h:154-164 | The names of a path are the non-empty fields between its separators |
| PathProperties.PartsTell | src/filesystem_trie.h:187-196 | Two paths have the same parts exactly when both or neither start at the root and their non-empty pieces agree, so no two other paths meet in the index |
| PathProperties.KeyOrder | src/manifest_section.h:82-84 | Paths sort part by part, relative ones first and a directory before what is below it |
| DpkgDatabases.ProcessPackageListFile | src/dpkg_database.h:100-115 | The line loop inserts exactly the entries of the file, in order |
| DpkgDatabases.FromPath | src/dpkg_database.h:121-136 | Loading throws exactly when a regular list file cannot be opened; otherwise the index records the listed paths of all packages and nothing else, whatever the order |
| DpkgDatabases.DpkgDatabase.LookupByPath | src/dpkg_database.h:138-142 | The lookup succeeds exactly for the paths that a line of some package's list spells, the same start and the same pieces, with a package that has such a line; every other path is not found |
| TrieModel.BuildRefinesMap | src/filesystem_trie.h:149-200 | After any insertions the nodes are exactly the prefixes of inserted paths, and find gives the last value inserted at exactly that path |
| TrieModel.LastMatchingMeaning | src/filesystem_trie.h:202-221 | The deepest existing node is the longest prefix of the path that is a prefix of an inserted path, and the lookup gives the last value inserted there, or none |
| TrieModel.AntichainLongestPrefix | src/filesystem_trie.h:202-221 | When no inserted path extends another, an inserted prefix of the path is the one found, with its last value |
| TrieModel.AntichainNoMatch | src/filesystem_trie.h:202-221 | Without an inserted prefix nothing is found |
| TrieModel.SizeBounds | src/filesystem_trie.h:171-174 | The size of a trie built by insertions is between its number of leaves and its number of valued nodes, the root aside |
| TrieModel.ListingFind | src/filesystem_trie.h:87-91 | Re-inserting a complete listing of a tree gives the same find on every path |
| TrieModel.ListingSize | src/filesystem_trie.h:87-91 | Re-inserting it ancestors first counts exactly the valued nodes other than the root |
| TrieLookup.LongestUnlessShadowed | src/filesystem_trie.h:202-221 | The lookup is longest-prefix match if and only if no inserted path shares more of the path than its longest inserted prefix |
| TrieLookup.FoundIsLongest | src/filesystem_trie.h:202-221 | Whatever is found is the longest match, and a shadowed path finds nothing |
| TrieLookup.SiblingHidesOwner | src/filesystem_trie.h:202-221 | A concrete case where it is not: a node that only leads to a sibling hides the owner above it |
| FilesystemTrie.FileSystemTrie.AddChild | src/filesystem_trie.h:161-163 | A missing child is added as a valueless node and every other node keeps its name, children and value |
| FilesystemTrie.FileSystemTrie.EnsureChild | src/filesystem_trie.h:161-164 | The child of that name is reached, created if needed, and reported new exactly when it was missing |
| FilesystemTrie.FileSystemTrie.Walk | src/filesystem_trie.h:151-165 | The walk adds exactly the missing nodes along the path, and reports an insertion exactly when the path did not exist |
| FilesystemTrie.FileSystemTrie.SetValue | src/filesystem_trie.h:171 | Only the value at that path changes |
| FilesystemTrie.FileSystemTrie.Insert | src/filesystem_trie.h:149-175 | The heap tree afterwards is the map with the path and its prefixes added and the value set; the size grows exactly when the path did not exist |
| FilesystemTrie.FileSystemTrie.Find | src/filesystem_trie.h:183-200 | Reads the value at exactly this path, empty parts skipped |
| FilesystemTrie.FileSystemTrie.FindLastMatching | src/filesystem_trie.h:202-221 | Reads the value at the longest prefix of the path that exists as a node |
| TrieIterator.ConstIterator.constructor | src/filesystem_trie.h:120-127 | A new iterator stands on the first valued node, or at the end of a trie without values |
| TrieIterator.ConstIterator.Advance | src/filesystem_trie.h:129-147 | Each step yields one more valued path not yielded before, never before an ancestor; at the end every node has been seen |
| TrieIterator.ConstIterator.Pop | src/filesystem_trie.h:131-137 | Taking a node off the stack and pushing its children keeps the stack an antichain that covers exactly the nodes not seen yet |
| TrieIterator.ConstIterator.PushChildren | src/filesystem_trie.h:135-137 | Every child is pushed once, under its parent's path extended by its name |
| TrieIterator.CopyTrie | src/filesystem_trie.h:87-91 | The copy finds the same value as the original on every path, and its size is exactly the number of valued nodes other than the root |
| Text.TrimMeaning | src/util.h:250-266 | Trimming removes outer white space, all of it and nothing else |
| Text.TrimPadded | src/util.h:250-266 | White space around a trimmed string is exactly what trimming takes off |
| Text.StringTrim | src/util.h:250-266 | The two cursors that move inwards compute that trimming |
| ManifestFormats.LinePrefixingFilter.Put | src/util_io.h:38-48 | Each character is passed on, with the prefix before it exactly at the start of a line |
| ManifestFormats.WithPrefix | src/util_io.h:55-65 | Writing through the filter appends the text with the prefix before every line |
| ManifestFormats.PrefixedLines | src/util_io.h:38-48 | Line by line, the filtered text is the text's lines, each behind the prefix, with the final newline as it was |
| ManifestFormats.LinesOfWrite | src/manifest_format.h:123-135 | The lines of a written file are the commented preamble and, for each section, its header, its indented lines and blank lines |
| ManifestFormats.ManifestFormat.GetSection | src/manifest_format.h:99-107 | Finds the first section of that name, or reports that there is none |
| ManifestFormats.ManifestFormat.AddSection | src/manifest_format.h:109-121 | A section is added at the end exactly when its name is valid and new; otherwise nothing changes |
| ManifestFormats.ManifestFormat.WriteTo | src/manifest_format.h:123-135 | The output is the specified text of preamble and sections |
| ManifestFormats.ManifestFormat.ReadLines | src/manifest_format.h:51-92 | The line loop reads the text as specified: comments cut, lines trimmed, blank ones dropped, headers opening sections, content before any header and repeated names refused |
| ManifestFormats.ReadContent | src/manifest_format.h:55-89 | Indented content lines end up, cleaned and without blank ones, in the section their header opened |
| ManifestFormats.WriteThenRead | src/manifest_format.h:51-135 | Writing sections with unique valid names and reading them back gives the same sections in order with their content cleaned line by line; the preamble leaves no trace |
| ManifestNormalForm.ReadKeepsNormal | src/manifest_format.h:51-92 | Every accepted text reads as unique valid names with content lines that are trimmed, non-empty, free of comments and not headers |
| ManifestNormalForm.ReadExactly | src/manifest_format.h:51-92 | Exactly which texts are accepted, and as what: comments, outer white space and blank lines aside, the headers and content lines of sections with different names; a second header of one name and content before any header are refused |
| ManifestNormalForm.ReadWriteRead | src/manifest_format.h:51-135 | For every accepted text, writing what was read under any preamble and reading again gives the same sections in the same order |
| ManifestSections.Save | src/manifest_section.h:63-104 | Nothing is written for an empty list; otherwise the commented header and, in path order, one line for each entry as its status asks |
| ManifestSections.SaveEntries | src/manifest_section.h:86-101 | The loop appends exactly the text of the sorted entries |
| ManifestSections.Load | src/manifest_section.h:30-61 | The list is replaced by what the lines ask for, the first line for a path winning, other lines being skipped |
| ManifestSections.LoadLineExactly | src/manifest_section.h:39-57 | Which lines ask for which path: a mark, then the path between white space, as it is or in quotes; all others are passed over |
| ManifestSections.LoadKeepsFirst | src/manifest_section.h:30-61 | Loading gives exactly the paths that some line asks for, each with the status of the first such line |
| ManifestSections.SaveManifest | src/tracer.h:267-293 | The manifest file is the formatted section with the fixed preamble, or nothing for an empty list |
| ManifestSections.LoadManifest | src/tracer.h:253-265 | Loading succeeds exactly when the file can be read, and replaces the list exactly when the file has the section |
| ManifestRoundTrip.KeptLineLoads | src/manifest_section.h:36-59 | A saved line survives cleaning as a proper content line, and loads as the path up to a comment sign, trimmed and unquoted |
| ManifestRoundTrip.CarriedExactly | src/manifest_section.h:48-59 | A kept path comes back if and only if it has no comment sign, no outer white space and no leading quote; otherwise a strictly shorter one does, or none |
| ManifestRoundTrip.SaveThenLoad | src/tracer.h:253-293 | For newline-free paths, saving, prefixing, writing, reading and loading always succeeds, and gives exactly the files to copy and the results with their statuses, every ignored entry dropped, if and only if all kept paths can be carried |
| JsonParsers.JsonParser.SkipWhitespace | src/json.h:217-221 | The cursor moves over exactly the white space in front of it |
| JsonParsers.JsonParser.ParseString | src/json.h:309-358 | The string loop reads up to the closing quote through the escape table, or reports the position of a bad escape or of the missing quote |
| JsonParsers.JsonParser.ParseBoolean | src/json.h:360-374 | Exactly the words true and false are accepted |
| JsonParsers.JsonParser.ParseNull | src/json.h:376-386 | Exactly the word null is accepted |
| JsonParsers.JsonParser.ScanNumber | src/json.h:388-412 | The scan takes the longest number text and knows whether it has a point or an exponent |
| JsonParsers.JsonParser.ParseNumber | src/json.h:388-439 | A number text is a 32-bit integer when it can be one, else a double when the library converts it in full, else an error at its start |
| JsonParsers.JsonParser.ParseValue | src/json.h:223-253 | Agrees with the parsing function on the text that is left; the cursor never passes the end and a success advances it |
| JsonParsers.JsonParser.ParseObject | src/json.h:255-284 | The member loop agrees with the parsing function: value, rest of the input or error position |
| JsonParsers.JsonParser.ParseArray | src/json.h:286-307 | The element loop agrees with the parsing function: value, rest of the input or error position |
| JsonParsers.JsonParser.Run | src/json.h:198-206 | Parsing ends on every input with the specified value or error position; text after the value is an error |
| JsonParsers.JsonValuePrinter.PrintText | src/json.h:136-167 | Appends the quoted string, escaped character by character |
| JsonParsers.JsonValuePrinter.PrintJson | src/json.h:441-444 | Appends exactly the printed text of the value |
| JsonParsers.JsonValuePrinter.PrintArray | src/json.h:169-180 | Appends the bracketed items with a comma between each two |
| JsonParsers.JsonValuePrinter.PrintObject | src/json.h:182-195 | Appends the braced members with a comma between each two |
| JsonGrammar.StringComplete | src/json.h:309-358 | The text of any string pieces reads as what they mean, whatever follows the closing quote |
| JsonGrammar.EscapesRead | src/json.h:320-349 | The parser knows exactly the eight escapes of section 7 of RFC 8259 with one character, each with its meaning there; every other character after a backslash is refused |
| JsonGrammar.NumberComplete | src/json.h:388-439 | A number text is read whole when what follows cannot continue it |
| JsonGrammar.ValueComplete | src/json.h:223-439 | The text of every well-formed tree, after any white space, parses as the tree's meaning and leaves exactly what follows |
| JsonGrammar.StringRefused | src/json.h:309-358 | After any well-formed pieces a string is refused at the character of an unknown escape, or at the end of the text when the closing quote is missing |
| JsonGrammar.ValueRefused | src/json.h:217-253 | A value is refused at its first character when that starts no value, when the word is not there, and when the number text is no number |
| JsonGrammar.ElementStep | src/json.h:286-307 | After an element white space and a comma or the bracket; anything else is refused at its position |
| JsonGrammar.MemberStep | src/json.h:255-284 | The same after the member of an object, which is entered under its key |
| JsonTheorems.StringSound | src/json.h:309-358 | Every string the parser accepts is the text of pieces that mean the value it gives |
| JsonTheorems.NumberSound | src/json.h:388-439 | Every number it accepts is a whole number text with that value |
| JsonTheorems.NumberTexts | src/json.h:388-439 | The number texts, character by character: a minus sign or a digit, then digits, points and exponent marks with a sign; whole numbers of 32 bits become integers, all others are doubles if they convert |
| JsonTheorems.ItemsSound | src/json.h:286-307 | Every array it accepts is the text of items that mean the value it gives |
| JsonTheorems.MembersSound | src/json.h:255-284 | Every object it accepts is the text of members that mean the value it gives |
| JsonTheorems.ValueSound | src/json.h:223-253 | Every value it accepts is white space and the text of a well-formed tree that means that value |
| JsonRoundTrip.ParsesExactly | src/json.h:198-439 | The parser accepts a text with a value if and only if the text is white space and a well-formed tree with that meaning |
| JsonRoundTrip.TrailingSpaceRefused | src/json.h:198-206 | White space after the top-level value is refused, at its position |
| JsonRoundTrip.WhiteSpaceIrrelevant | src/json.h:217-307 | Two texts that differ only in white space between tokens parse to the same value |
| JsonRoundTrip.EmplaceLooksUp | src/json.h:273 | Emplacing a member changes the lookup of its key only, and only if the key was absent |
| JsonRoundTrip.FirstKeyWins | src/json.h:255-284 | An object lists each key once, in key order, with the value of its first occurrence |
| JsonRoundTrip.CanonChar | src/json.h:136-167 | The printer's escape table is inverted by the parser's for every byte |
| JsonRoundTrip.PrintIntReads | src/json.h:412-425 | Every 32-bit integer reads back from its decimal text |
| JsonRoundTrip.CanonPrints | src/json.h:123-196 | What is printed is the text of a well-formed tree that means the printed value |
| JsonRoundTrip.ParseOfPrint | src/json.h:123-439 | Parsing undoes printing for every value without doubles: all nestings, all byte strings, all 32-bit integers, objects with ordered unique keys |
| Decimal.PrintNatReads | src/default_image_files.h:193-194 | Every natural number reads back from its decimal digits |
| FileTracers.FileTracer.ResolvePathAt | src/file_tracer.h:204-250 | Gives the normalised absolute path a call names, or nothing when the base directory is unknown or the path is ignored |
| FileTracers.FileTracer.OnSyscallEntry | src/file_tracer.h:139-161 | An entry raises an exception exactly when a handled call of that process is pending; otherwise the pending table again mirrors the trace, now longer by this event, and no record changes |
| FileTracers.FileTracer.OnSyscallExit | src/file_tracer.h:163-177 | An exit raises an exception exactly when the effect of its matched pair is one; otherwise the fields again are the folds over the trace, now longer by this event |
| FileTracers.FileTracer.RegisterFile | src/file_tracer.h:179-202 | The first record of a path stays, the size being looked up only for regular files that existed before |
| FileTracers.FileTracer.EntryState | src/file_tracer.h:252-271 | Each call leaves the file information its entry handler computes |
| FileTracers.FileTracer.GenericOpenExit | src/file_tracer.h:273-318 | A file is recorded exactly for a successful call whose descriptor is equivalent to a path that is still a file or directory, as FileTracerRecords.PairRecordsFile spells out |
| FileTracers.FileTracer.ReadLinkExit | src/file_tracer.h:331-362 | A link is recorded exactly for a successful call whose target can be read and is not ignored, the first record staying |
| FileTracers.FileTracer.ExitHandler | src/file_tracer.h:402-483 | The handler of each call has exactly the effect specified for it on both tables |
| FileTracerProperties.Run | src/syscall_monitor.h:382-386 | Feeding events in order stops exactly at the first one that raises an exception; without one the tracer has seen the whole trace |
| FileTracerProperties.StateHoldsPending | src/file_tracer.h:153-169 | The table holds exactly the processes inside a handled call |
| FileTracerProperties.PendingIsLast | src/file_tracer.h:139-177 | On every trace a process is inside a handled call exactly when its last exit or handled entry is such an entry |
| FileTracerRecords.NamesResolved | src/file_tracer.h:204-250 | The path a call is taken to name: absolute paths as they are, relative ones below the working directory of the process or the directory behind the descriptor, normalised, unless ignored |
| FileTracerRecords.PairRecordsFile | src/file_tracer.h:252-318 | Exactly when an entry and its exit record a file, call by call: open needs a returned descriptor equivalent to the path, open and stat a file or directory that is still there, execve a status; and the record: full path, size at exit for regular files that existed before, existed before unless the entry found nothing, always for execve |
| FileTracerRecords.PairRecordsLink | src/file_tracer.h:320-362 | Exactly when an entry and its exit record a link, and with which target: a successful readlink of a path that is not ignored, whose target can be read and is not ignored |
| FileTracerRecords.PairThrows | src/file_tracer.h:402-418 | A pair raises an exception exactly for a successful execve whose image has no readable status at exit |
| FileTracerProperties.ExitEndsMatchedPair | src/file_tracer.h:163-177 | On every trace an exit has the effect of the matched pair it ends, and none without one, however processes interleave |
| FileTracerProperties.FilesAreFirst | src/file_tracer.h:201 | A path is recorded exactly when some effect records it, as the first such effect in exit order does |
| FileTracerProperties.LinksAreFirst | src/file_tracer.h:361 | The same for links |
| FileTracerProperties.RecordedFiles | src/file_tracer.h:139-202 | Over whole interleaved traces: a file is recorded exactly when some matched pair of entry and exit touches it, and the record is that of the pair with the first exit |
| FileTracerProperties.RecordedLinks | src/file_tracer.h:331-362 | The same for links and their targets |
| FileTracerProperties.QuietExactly | src/file_tracer.h:139-202 | No exception is raised if and only if no process enters a handled call inside another and no successful execve finds the status of its image unreadable at exit |
| FileTracerProperties.LostImageRaises | src/file_tracer.h:402-418 | An alternating trace that raises one: an execve whose image can no longer be looked at when it returns |
| FileTracerProperties.ReentryRaises | src/file_tracer.h:155-160 | A second handled entry of one process raises an exception |
| FileTracerProperties.NothingIgnoredRecorded | src/file_tracer.h:242-247 | No ignored or relative path is ever recorded, and no link to an ignored target |
| SymlinkResolvers.SymlinkResolver.Rewrite | src/util_fs.h:57-64 | The loop pushes the first rewriting that works, links in order and each in both directions, and stops there |
| SymlinkResolvers.CandidateExactly | src/util_fs.h:34-48 | A rewriting puts one directory in place of another that is an ancestor of the path, keeping what follows it, and stands only if it exists and is the same file; the directory itself becomes its dot entry |
| SymlinkResolvers.RewriteExactly | src/util_fs.h:57-64 | What is tried next is the first attempt that works, link by link, the link for its target before the target for the link |
| SymlinkResolvers.SymlinkResolver.ResolveSymlinks | src/util_fs.h:27-72 | Whenever some finite set around the path is closed under the step the work list ends, with the least set that contains the path and is closed under the step: exactly the names that walks of first working rewritings and own links end at |
| SymlinkResolvers.FoundExactly | src/util_fs.h:27-72 | The names found are exactly those that a walk from the path ends at, each step the first working rewriting or the own link of the name before |
| SymlinkResolvers.BelowLinkFound | src/util_fs.h:34-48 | If a found name lies below a directory and the same name below the other end of a root link exists and is the same file, that name is found too, unless an earlier attempt gave one |
| SymlinkResolvers.ClosureUnique | src/util_fs.h:27-72 | That set is determined, so the order of the work list does not show |
| SymlinkResolvers.ClosureSameFile | src/util_fs.h:27-72 | If every step preserves file identity, all names found name the file the search started from |
| SymlinkResolvers.TargetsDecide | src/util_fs.h:42-48 | The rewriting steps preserve identity by their own check, so only the targets of links have to |
| SymlinkResolvers.FiniteNamesClose | src/util_fs.h:27-72 | Where existing names and link targets are finitely many, every search ends, whatever the links and wherever it starts |
| SymlinkResolvers.ClosureNeedsBound | src/util_fs.h:27-72 | A search that ends has found a finite closed set, so the condition for ending is also necessary |
| Resolvers.DebOwnerMeaning | src/resolvers.h:42-65 | A file is claimed by a Debian package exactly when one of its names belongs to one that is not passed over |
| Resolvers.ROwnerMeaning | src/resolvers.h:222-236 | A file is claimed by an R package exactly when one of its names belongs to one |
| Resolvers.DebRaisingMeaning | src/resolvers.h:42-65 | Looking through the names throws exactly when the kind of some name cannot be told and no name before it settles where the file goes |
| Resolvers.DebOwnerIsFirst | src/resolvers.h:43-62 | The package recorded for a file is that of the first name that belongs to one that is not passed over |
| Resolvers.ROwnerIsFirst | src/resolvers.h:222-236 | The same for R packages |
| Resolvers.DebPackageResolver.Resolve | src/resolvers.h:36-82 | The first stage throws exactly when the kind of some name cannot be told before a package settles the file, the manifest then being as before; otherwise it removes exactly the claimed files and links, keeps the others in order, and adds exactly their owners to the manifest |
| Resolvers.RPackageResolver.Resolve | src/resolvers.h:216-251 | The second stage removes exactly the claimed files, keeps the others in order, and adds exactly their owners |
| Resolvers.StatusMeaning | src/resolvers.h:111-147 | Copy and result are exactly the accessible files that are known to be regular behind their own link, apart by whether they existed before; each other status is characterised the same way, and none is marked as not having existed |
| Resolvers.CopyFileResolver.Status | src/resolvers.h:111-147 | A file's status follows from its accessibility, its kind behind its own link, and whether it existed before; an exception counts as not accessible |
| Resolvers.CopyFileResolver.ResolveFiles | src/resolvers.h:93-158 | The third stage empties the file list and adds every path not yet in the manifest with its status |
| Resolvers.CopyFileResolver.ResolveSymlinks | src/resolvers.h:162-194 | Exactly the links that still are links with an existing target move to the manifest; the others stay |
| Resolvers.AddAllMeaning | src/resolvers.h:99-107 | Entries from before keep their status, every added file has an entry, and every new entry is some added file with that file's status |
| Resolvers.KeepMeaning | src/resolvers.h:67-69 | The files a stage keeps and those it removes add up to the list it was given |
| Resolvers.KeepConcat | src/resolvers.h:67-69 | What is kept is kept in order |
| Resolvers.StagesSplit | src/tracer.h:211-217 | Each file leaves at exactly the stage its owners decide, so the differences of the list sizes count the three classes |
| Resolvers.StageMeaning | src/tracer.h:211-217 | A file goes to Debian when one of its names does, else to R when one of its names does, else to the copy list |
| Resolvers.LinksSorted | src/resolvers.h:162-194 | A link moves to the manifest exactly when no Debian package owns it, it still is a link and its target exists; without an owner it stays otherwise |
| Resolvers.RunResolvers | src/tracer.h:192-230 | The run fails exactly when the first stage throws; otherwise the list is empty, the three counts are those of the claimed and unclaimed files and sum to the total, every unclaimed file is in the copy list, no earlier entry, results included, is removed or changed, and the packages and links recorded are exactly the claimed ones; exactly the links without a Debian owner that still are links and lead to something move to the manifest |
| ResolveTask.ListedGoesToDebian | src/resolvers.h:42-65 | Over the real index and the real search for names: a file goes to Debian as soon as one of its names is listed, and by no package that is passed over |
| ResolveTask.DebianListsIt | src/resolvers.h:42-65 | A file goes to Debian only when a package that is not passed over lists one of its names |
| ResolveTask.OwnedGoesToR | src/resolvers.h:222-236 | A file that Debian does not take goes to R as soon as one of its names is in a package directory, when package directories do not nest |
| ResolveTask.RecordedAreStored | src/resolvers.h:222-250 | Every recorded R package is stored in the database and is nearest to some name of a traced file |
| ResolveTask.ResolveThenInstall | src/tracer.h:192-230 | From traced files to the script: what the stages record can be planned, only a reachable cycle stops it, and otherwise the script installs it with all dependencies in earlier batches |
| DefaultImages.StoullOfPrint | src/default_image_files.h:163-180 | Every 64-bit size reads back from its decimal text |
| DefaultImages.StoullExactly | src/default_image_files.h:163-180 | Which texts convert to which number: white space, a sign and all leading digits, at most 64 bits, negative ones wrapping around |
| DefaultImages.ReadLineExactly | src/default_image_files.h:132-182 | Exactly when a line gives an entry, and which field is which: at least six fields, no error mark, size and permissions that convert, permissions cut to 32 bits |
| DefaultImages.SavedLineExactly | src/default_image_files.h:145-182 | A saved line reads back as its entry if and only if no field holds the delimiter and the digest is not the error mark |
| DefaultImages.ReadIsSavable | src/default_image_files.h:132-182 | Whatever entry is read from a line can be saved: its fields are free of delimiter and newline and its numbers fit |
| DefaultImages.DefaultImageFiles.FromStream | src/default_image_files.h:126-186 | The result is, sorted by path, exactly the entries of the readable lines |
| DefaultImages.DefaultImageFiles.ParseLine | src/default_image_files.h:132-182 | A line is skipped when it has fewer than six fields, an error mark or a number that does not convert; permissions are cut to 32 bits |
| DefaultImages.DefaultImageFiles.Save | src/default_image_files.h:188-197 | Appends one line of six delimited fields for each entry |
| DefaultImages.LoadsSaved | src/default_image_files.h:126-197 | Reading what was saved gives the same entries with their multiplicities, sorted by path, and nothing else |
| DefaultImages.SaveThenLoad | src/default_image_files.h:126-197 | For distinct paths reading what was saved gives the list sorted by path, strictly and uniquely |
| DefaultImages.LoadSaveLoad | src/default_image_files.h:126-197 | What was read from any text can be saved and read again without loss |
| ArgumentParsers.FindIsFirst | src/argparser.h:382-392 | The option found is the first of that name, and none is found only when no option has it |
| ArgumentParsers.ArgumentParser.Parse | src/argparser.h:190-220 | The loop over the arguments accepts, rejects with the first error, and stores exactly as specified; every option holds what was stored in it last |
| ArgumentParsers.ArgumentParser.ParseShortOptions | src/argparser.h:305-335 | A group of letters stores its flags in order and gives the first letter that takes a value the rest of the group or the next argument |
| ArgumentParsers.ArgumentParser.ParseLongOption | src/argparser.h:337-364 | A long option takes its value after the equals sign or from the next argument; an empty value is refused |
| ArgumentParsers.ArgumentParser.ParsePositional | src/argparser.h:366-380 | A positional argument is appended to the current positional, and one too many is refused |
| ArgumentParsers.ArgumentParser.ValidateRequirements | src/argparser.h:394-407 | Reports the first required option without a value, then the first required positional without one |
| ArgumentParsers.ArgumentParser.ApplyDefaults | src/argparser.h:409-418 | Stores the default of every option that has one and no value yet, in table order |
| ArgumentProperties.LettersTaken | src/argparser.h:305-335 | Bundled flags, with or without an option and its glued or separate value at the end, store what the separate spellings store |
| ArgumentProperties.LongTaken | src/argparser.h:337-364 | The equals sign and the next argument are the same to a long option |
| ArgumentProperties.UnknownLongRefused | src/argparser.h:337-341 | After any options, a long option that no option is called is refused by that name, with or without a value |
| ArgumentProperties.UnknownLetterRefused | src/argparser.h:305-310 | A letter that no option is called is refused by that letter, whatever flags come before it |
| ArgumentProperties.MissingLongValueRefused | src/argparser.h:343-353 | A long option that takes a value is refused at the end of the line, before an empty argument, and with nothing after the equals sign |
| ArgumentProperties.MissingLetterValueRefused | src/argparser.h:312-323 | So is a letter that takes a value and has none |
| ArgumentProperties.SpellingStores | src/argparser.h:190-211 | Every spelling of an option, in front of any other arguments, stores its values and nothing else |
| ArgumentProperties.AnySpelling | src/argparser.h:190-220 | Command lines whose options store the same values in the same order parse alike, whatever the spelling |
| ArgumentProperties.DoubleDashIsAnOption | src/argparser.h:337-364 | A bare double dash does not end the options: it names the first option that lacks a short or a long name |
| ArgumentProperties.PositionalsVerbatim | src/argparser.h:366-380 | All positional arguments are stored, in order and unchanged |
| ArgumentProperties.MultipleTakesAll | src/argparser.h:366-380 | A positional that allows several values takes all arguments that follow |
| ArgumentProperties.PlacedExactly | src/argparser.h:366-380 | Each positional up to the first that allows several gets one argument, that one the rest; without such one the first argument too many is refused, and only then |
| ArgumentProperties.CommandIsSuffix | src/argparser.h:190-220 | With one such positional its values are exactly the rest of the command line from the first non-option on, dashes included |
| ArgumentProperties.DefaultsFill | src/argparser.h:409-418 | An option holds the last value given, or else its default |
| ArgumentProperties.AcceptedMeans | src/argparser.h:190-220 | A command line is accepted exactly when its options can be read, its positionals fit and nothing required is missing, a default not standing in for a required option |
| ArgumentProperties.RejectedMeans | src/argparser.h:190-220 | Which error is reported once the options can be read: the positional too many, else the first required option without a value, else the first required positional without one |
| ShellQuoting.EscapeCmdArg | src/util.h:21-73 | The two quoting loops compute the specified text, in both modes and with and without force |
| ShellQuoting.SingleReadsBack | src/util.h:44-58 | Inside single quotes every character is read back as it is, whatever follows |
| ShellQuoting.PlainReadsBack | src/util.h:28-42 | An argument without special characters is read back as it is |
| ShellQuoting.SingleQuoteRoundTrip | src/util.h:21-58 | Token recognition and quote removal give back exactly one word, equal to the argument, for every non-empty or forced argument |
| ShellQuoting.CommandRoundTrip | src/util.h:21-58 | A whole command of quoted arguments is read back as those arguments |
| ShellQuoting.EmptyDisappears | src/util.h:24-26 | Without force an empty argument leaves no word behind |
| ShellQuoting.DoubleQuoteRoundTrip | src/util.h:59-70 | In double-quote mode the same holds if and only if the argument has no exclamation mark |

## Left out

- Planner.Traversal.DfsVisit: dependencies are taken in an arbitrary order, of which the alphabetical one is an instance, so which package a cycle is reported at is not determined.
- FileTracerProperties.RecordedFiles: rests on the same two laws of the path library as FileTracerProperties.QuietExactly.
- FileTracerProperties.QuietExactly: rests on two laws of the path library, that the working directory is absolute and that normalising keeps a path absolute; exceptions of the library other than a failing file status are not modelled.
- SymlinkResolvers.SymlinkResolver.ResolveSymlinks: the file system is fixed during one search and its tests do not throw.
- Resolvers.RunResolvers: after an exception it says nothing of the file and link lists, which the library leaves unspecified; exceptions of the search for names are not modelled, and the counters that only appear in log lines are left out.
- ResolveTask.ResolveThenInstall: versions of Debian packages are not in the index, so only their names are tied to it.
- JsonParsers.JsonParser.ParseNumber: whether the library converts a text to a double is a parameter, and a double is kept as its text.
- JsonRoundTrip.ParseOfPrint: does not cover doubles, because the printer writes them with the default precision of the stream; a double is kept as its text, and whether a text converts is a parameter.
- DefaultImages.DefaultImageFiles.FromStream: of entries with equal paths any order is allowed, because the library sort is not stable.
- ShellQuoting.SingleQuoteRoundTrip: token recognition and quote removal only; tilde expansion, assignments and reserved words are not part of it, and the program does not quote against them.
- ManifestRoundTrip.SaveThenLoad: paths are compared as strings, while the path library also identifies spellings such as doubled separators; ignored paths with a newline are outside it.
- RpkgLines.TableReads: for tables whose fields hold no separator or newline, as printed ones do; what any other line means is stated by RpkgLines.LineExactly.
- PathProperties.KeyOrder: for paths without the zero byte, which no path has.
- RpkgDatabases.InstalledFileFound: for libraries with a path, names of one part and package directories that do not lie in one another; RpkgDatabases.OwnsMeaning and the lookup itself cover the other cases.
- RpkgDatabases.RpkgDatabase.LookupByPath: the program's pointers into the database are modelled by package names.
- Process tracing, forking, pipes and waiting (`src/syscall_monitor.h`, `src/process.h`): kernel behaviour; the tracer is given a sequence of events with the answers the kernel gave.
- Reading strings out of the traced process: it reuses the first chunk length on every pass, so it has no clean contract; events carry the string.
- The network client and the query for system dependencies (`src/curl.h`, `src/rpkg_database.h:224-281`): outside the program.
- JSON path queries and the result lookups of the argument parser: short reads of one value.
- `\u` escapes: the parser does not support them; they are refused like any other unknown escape.
- Copy assignment of the trie: it keeps the old nodes and returns nothing; only the copy constructor is modelled.
- The output of `dpkg -l` and the lookup by package name: simple field reading and two map lookups.
- The rules of the ignore map: a parameter of the tracer.
- Finding the links of the root directory (`src/util_fs.h:78-97`): the resolver is given the list.
- Dockerfile, Makefile and R script text, archives, user and time zone capture, the editor, logging and elapsed times: I/O or fixed text.
- Counters and sizes are unbounded, except where a width is part of the behaviour: 32-bit JSON integers, 64-bit sizes and 32-bit permissions.
- Classification of bytes is that of the C locale.
