# static-distro: a verified model of its package tools

The project models the parts of `tools/` that carry the algorithms of static-distro: the order on
package versions, the dependency solver, the merge of package trees into one tree of symbolic links,
and the control-file parser with its printer. C strings are sequences of characters without NULs, a
C pointer into a string is the suffix that starts there, and an object that the C code updates in place
is a class.

Every lemma carries `{:induction false}`, so a lemma proved by induction shows its induction in its
body. `hide` statements keep definitions that a proof does not use away from the solver.

## Layout

| file | what it models |
|---|---|
| `Chars.dfy`, `CNumber.dfy` | character classes, `strchr`, `strtoul`/`strtoull` of the C locale |
| `VersionParse.dfy`, `VersionGrammar.dfy` | `parse_coarse`, and the grammar it accepts |
| `VersionOrder.dfy`, `VersionFacts.dfy` | the version order as a lexicographic order, and what follows from it |
| `VersionRules.dfy`, `VersionSuffix.dfy` | what decides a comparison, said of the strings; what a suffix does |
| `VersionLoops.dfy`, `PkgVerCmp.dfy` | the loops of `version_cmp`, and `pkgvercmp` |
| `Available.dfy`, `Discovery.dfy`, `Choice.dfy` | one package's list of versions; what a run can reach and in which order; when the chosen version is the greatest |
| `Solve.dfy`, `WithPkgs.dfy` | the solver as it runs, its callback, and the command line built from its result |
| `FileTree.dfy`, `Overlay.dfy`, `Dots.dfy`, `WithEnv.dfy` | package trees; merging them; the condition and the result said of the trees, without names that start with a dot; `link_packages` with its path buffer |
| `ControlParse.dfy`, `ControlNodes.dfy`, `ControlFile.dfy`, `Paragraphs.dfy` | what a line does to the paragraphs; the linked lists and the parser that builds them; whole files; kinds of lines, and blank lines between paragraphs |
| `Control.dfy`, `SourceControl.dfy`, `ControlRules.dfy` | records of binary and source packages; which files are accepted, and where every part of a record comes from |
| `GenControl.dfy`, `Pipeline.dfy` | the printer, the round trip, and `gencontrol` as a whole |

## Main results

* **Versions.** `version_cmp` is antisymmetric on all accepted strings. It is a total preorder on the
  *regular* ones, and only there: if the upstream part is empty and the revision starts with a number that
  is not zero, `strtoull` takes the hyphen for a sign, and such a version always forms a circle with two
  regular ones (`RegularExactly`; `-5` < `-+` < `1` < `-5` is one). The regular versions include all plain
  ones, that is those whose upstream part ends in a digit or whose revision does not start with one.
  Two plain versions compare equal exactly when they have the same epoch, the same runs of non-digits and the same
  numbers, where numbers are capped at 2^64-1 and a part without any pair equals one with just an empty run and zero
  (`EqualPlain`). For all regular ones that holds of what `version_cmp` sees (`EqualExactly`), which is not always
  their own: where the upstream part ends without digits, the number read there is that of the hyphen and the
  revision behind it, so that `a-5` equals `a18446744073709551611-5` (`EqualPastEnd`, `EqualInput`).
  The smaller epoch decides, then the upstream part, then the revision (`EpochDecides`, `UpstreamDecides`,
  `RevisionDecides`), in a part the first pair that differs, and in a run the first character that does.
  A suffix that starts with a tilde or a letter, behind a hyphen where there is no revision, always makes a version
  smaller, and one that starts with a plus sign or a dot makes it greater (`SuffixDecides`).
* **Solver.** A run succeeds exactly when every name reachable through chosen dependencies has a version
  to choose; then the package list holds exactly those names, each once, in discovery order, with the head of its
  list chosen. If all versions offered for a name are regular, the chosen one is greater than every other
  (`ChosenIsMaximum`). An irregular one can be chosen although a greater one is offered (`SpoiledList`,
  `SpoiledChoice`); exactly the regular versions never spoil a choice among otherwise regular ones (`ChoiceExactly`).
  A run fails, or aborts, exactly when the first package in discovery order without a choice does. A finite set of names closed under dependencies bounds the run, cycles included, and every
  repository is one: `withpkgs` builds its command line exactly if the repository holds all packages that are
  needed, and then from exactly those (`BuildCommand`). Needed is what a path of dependencies of first versions reaches
  from the constraints; after a successful run every dependency of a chosen version is in the list.
* **Merge.** Linking packages into fresh trees succeeds exactly when every path fits the buffer, no package has a
  file in place of `bin`, `lib` or `include`, and no path is a file in one package and anything at all in another
  (`CanMerge`, `Merged`); names that start with a dot count for nothing (`StrippedMerge`). Then the destination is the union of the packages, with one symbolic link for each file. The loop over a directory
  takes its entries in an unspecified order, and the contract determines the outcome and the tree, so neither that
  order nor that of the packages matters (`SameResult`).
* **Control files.** The parser keeps its nested lists of paragraphs, fields and lines free of cycles and sharing, with
  every `last` pointer at the end of its list, whatever lines it is given. Blank lines separate paragraphs: what is
  in front of one and what is behind it are accepted or refused as on their own (`ParseSeparates`). Exactly the files
  of `BinaryAccepted` and `SourceAccepted` are accepted. A printed record is read back unchanged
  exactly if its strings are such that they can stand in the file (`RoundTripExactly`), and whatever is read from any
  text can be printed again. Reading what `gencontrol` writes yields the package of the name with the version that was
  asked for, the source pair, and its own run dependencies followed by the common ones (`GenControlFile`).

Where the code and its comments differ, the model follows the code. The comment at `tools/version.c:226-228` says that
`strtoull` stops at the end of a part because no digits follow it. It reads on where the part has run out of digits and the
revision starts with a number other than zero: then the hyphen and the revision are read as a negative number. For a part
that is not empty `ReadsWithin` says exactly when that happens, and `ReadsPastEnd` gives `1.a-5`; for an empty one it is
what makes a version irregular (`RegularMeans`).

## Model

| member | source | states |
|---|---|---|
| `CNumber.StrtoullStop` | tools/version.c:235-236 | a character that is no space, sign or digit ends what strtoull reads, whatever follows it |
| `CNumber.StrtoullDigits` | tools/version.c:226-236 | at a digit strtoull reads the whole run, capped at 2^64-1, and nothing behind it |
| `VersionParse.ParseCoarse` | tools/version.c:69-124 | accepts exactly the strings that split, and returns the epoch and the places and lengths of both parts |
| `VersionParse.CheckRevision` | tools/version.c:102-107 | succeeds exactly if all characters behind the hyphen may stand in a revision |
| `VersionParse.CheckUpstream` | tools/version.c:114-121 | succeeds exactly if all characters up to the hyphen or the end may stand in an upstream part |
| `VersionGrammar.ReadEpochIff` | tools/version.c:79-94 | without a minus sign, reading the epoch succeeds exactly on space, optional plus, digits that fit `unsigned`, or nothing |
| `VersionGrammar.SplitGlued` | tools/version.c:69-124 | every string glued from epoch prefix, upstream and optional revision is accepted and cut exactly there |
| `VersionGrammar.GlueBack` | tools/version.c:69-124 | every accepted string is the glueing of its parts, so its lengths never wrap and its one hyphen follows the first colon |
| `VersionGrammar.AcceptedIffGlued` | tools/version.c:69-124 | the accepted strings are exactly those of the grammar |
| `VersionOrder.CmpVercharRanks` | tools/version.c:194-219 | the branches compare ranks: tilde, letters, then the end of the run and other characters by code |
| `VersionOrder.CmpRunsComposes` | tools/version.c:173-192 | comparing runs of non-digits composes transitively, strictly if one step is strict |
| `VersionOrder.CmpItemsComposes` | tools/version.c:137-171 | so does comparing lists of (run, number) pairs where a missing pair reads as (empty, 0) |
| `VersionOrder.CmpItemsFlip` | tools/version.c:137-171 | swapping two parts negates the result, also where the number behind a part is not zero |
| `VersionOrder.RegularUpstream` | tools/version.c:147-168 | between regular versions the number read behind the upstream part plays no role at the end of the list |
| `VersionOrder.CompareFlip` | tools/version.c:30-67 | for all strings swapping the arguments swaps LT and GT, and failure means that one of them is not accepted |
| `VersionOrder.CompareSame` | tools/version.c:30-67 | an accepted version equals itself |
| `VersionOrder.CompareComposes` | tools/version.c:30-67 | on regular versions LT and EQ compose through epoch, upstream and revision, to EQ only from two EQs |
| `VersionLoops.CmpNondig` | tools/version.c:173-192 | the index loop computes the lexicographic comparison of padded runs |
| `VersionLoops.CmpDig` | tools/version.c:221-241 | compares what strtoull reads at the two pointers, ignoring the lengths |
| `VersionLoops.Round` | tools/version.c:146-162 | one round takes off the first pair: the run, and the number read behind it even past the end of the part |
| `VersionLoops.CmpVerstr` | tools/version.c:137-171 | the pointer-and-index loop computes the lexicographic comparison of the two lists of pairs, for all strings |
| `VersionLoops.VersionCmp` | tools/version.c:30-67 | the whole function computes the order of the model, and FAILED exactly if one string is not accepted |
| `VersionFacts.GluedParts` | tools/version.c:69-124 | a glued version has the parts it was glued from and no others, and what is read behind its upstream part is its revision part |
| `VersionFacts.PlainIsRegular` | tools/version.c:226-236 | plain versions are regular |
| `VersionFacts.PlainUpstreamOrder` | tools/version.c:137-171 | on plain versions upstream parts compare as lists of their own runs and numbers, missing ones read as (empty, 0) |
| `VersionFacts.RegularMeans` | tools/version.c:226-236 | an accepted version is regular exactly if its upstream part is not empty, it has no revision, or the revision starts with no number but zero |
| `VersionFacts.ReadsWithin` | tools/version.c:226-236 | the pairs of the upstream part hold nothing but its own runs and numbers exactly if it is empty or ends in a digit, there is no revision, or the revision starts with no number but zero |
| `VersionFacts.ReadsPastEnd` | tools/version.c:226-236 | the version `1.a-5` is accepted and regular, and a number is read behind its upstream part |
| `VersionFacts.IrregularCircle` | tools/version.c:221-241 | every irregular version forms a circle with two regular ones that have its epoch |
| `VersionFacts.RegularExactly` | tools/version.c:30-67 | an accepted version is regular if and only if it never breaks transitivity together with regular versions |
| `VersionFacts.IrregularExample` | tools/version.c:226-236 | the version `-5` is accepted and not regular |
| `VersionFacts.EqualExactly` | tools/solve.c:140-144 | regular versions compare equal exactly if epoch and the pairs that are compared agree, up to one empty pair with number zero; the last number of an upstream part without digits at its end is the one read behind it |
| `VersionFacts.EqualPlain` | tools/solve.c:140-144 | plain versions compare equal exactly if epoch and the runs and capped numbers of both parts agree, up to one empty pair with number zero |
| `VersionFacts.EqualPastEnd` | tools/version.c:226-236 | an upstream part that ends without digits, in front of a revision with a number, compares equal to the part with the negative of that number modulo 2^64 behind it |
| `VersionFacts.EqualInput` | tools/version.c:226-236 | the versions `a-5` and `a18446744073709551611-5` compare equal |
| `VersionRules.EpochDecides` | tools/version.c:43-48 | of two versions with different epochs the one with the smaller epoch is smaller, whatever the rest is |
| `VersionRules.UpstreamDecides` | tools/version.c:50-56 | between equal epochs the upstream parts decide before the revisions, unless they compare equal |
| `VersionRules.RevisionDecides` | tools/version.c:58-66 | between equal epochs and upstream parts the revisions decide, a missing one read as empty |
| `VersionRules.FirstPairDecides` | tools/version.c:137-171 | the first pair in which two parts differ decides: its run of non-digits, or, if the runs are equal, its number |
| `VersionRules.FirstCharDecides` | tools/version.c:173-192 | the first character in which two runs differ decides, the end of a run read as NUL |
| `VersionRules.CharOrder` | tools/version.c:194-219 | tilde, upper and lower case letters, the end of the run, plus sign, dot and colon are ordered like this |
| `VersionOrder.ItemsStep` | tools/version.c:146-162 | a part that starts with a run of non-digits and one of digits starts with the pair of the run and the capped number |
| `VersionRules.StrtoullMeans` | tools/version.c:231-232 | reading white space, a sign, digits and something else yields the number, negated modulo 2^64 behind a minus sign, or 2^64-1 and ERANGE |
| `VersionRules.CappedMeans` | tools/version.c:231-232 | numbers of digits alone are capped at 2^64-1 |
| `VersionRules.EpochRange` | tools/version.c:79-94 | digits in front of a colon are an epoch exactly up to 2^32-1, and count as their number |
| `VersionRules.AcceptedWord` | tools/version.c:69-124 | without colon and hyphen, exactly the strings of ASCII letters, digits, plus signs, dots and tildes are accepted, as an upstream part |
| `VersionRules.AcceptedWithRevision` | tools/version.c:69-124 | without colon, a string with a hyphen is accepted exactly if both sides of the first one are such strings |
| `VersionSuffix.SuffixDecides` | bootstrap/stage3_inner.sh:54 | behind any accepted version, revision characters that start with a tilde or a letter make it strictly smaller, and ones that start with a plus sign or a dot strictly greater |
| `VersionSuffix.HyphenSuffixDecides` | bootstrap/stage1.sh:51 | so do a hyphen and such characters behind an accepted version without revision |
| `PkgVerCmp.Run` | tools/pkgvercmp.c:35-66 | reports an unsupported argument exactly if there is one, compares two, or selects the last of the selections, which is the earliest best of regular ones |
| `PkgVerCmp.Select` | tools/pkgvercmp.c:52-66 | the loop goes from the first version always to the next that beats the selected one, and of regular versions ends at the earliest that is at least (at most) every other |
| `PkgVerCmp.SelectionsUnique` | tools/pkgvercmp.c:52-66 | for any versions there is only one such sequence of selections |
| `Available.InsertPlace` | tools/solve.c:132-160 | an insertion goes behind all greater versions and in front of the first smaller one, and changes nothing else |
| `Available.InsertDescending` | tools/solve.c:132-160 | insertion keeps each version greater than its successor, whatever the strings are |
| `Available.AddSound` | tools/solve.c:101-160 | adding a version keeps the list descending and without repeated strings, keeps what it held, and leaves it non-empty |
| `Available.DescendingAccepted` | tools/solve.c:132-154 | in a list of two or more every version string is valid |
| `Available.DescendingPairs` | tools/solve.c:132-160 | on regular versions the list is strictly descending, not only between neighbours |
| `Available.HeadIsMaximum` | tools/solve.c:196-197 | in a list of regular versions the head is greater than every other |
| `Available.InsertOutcome` | tools/solve.c:132-154 | on regular versions an insertion never fails, and aborts exactly if an equivalent version is in the list |
| `Available.AddAllMembers` | tools/solve.c:89-161 | after any additions that succeed the list holds the old versions, one for every offered string, and nothing else |
| `Available.AddAllSource` | tools/solve.c:117-129 | every version that additions bring into the list has the dependencies of the first offer of its version string, in reverse |
| `Available.RepeatedOffer` | tools/solve.c:101-106 | offering a version again changes nothing |
| `Available.OrderIndependent` | tools/solve.c:89-161 | the list does not depend on the order in which pairwise inequivalent regular versions are added |
| `Discovery.ReachableLeast` | tools/solve.c:184-209 | the reachable names are the least set with the initial names that is closed under chosen dependencies |
| `Discovery.ChoiceMeans` | tools/solve.c:186-197 | a version can be chosen exactly if the callback adds its versions without an error, reports success, and there is a version; without a callback, if there was one |
| `Discovery.DepsAreOffered` | tools/solve.c:199-207 | the dependencies that a run follows are those offered with the chosen version string, in reverse |
| `Discovery.AddNamesFresh` | tools/solve.c:199-207 | new names go to the end of the list in the order of the dependencies |
| `Discovery.FrontierSound` | tools/solve.c:184-209 | every name in the growing list is reachable, the list only grows at its end, and no name occurs twice |
| `Discovery.FrontierComplete` | tools/solve.c:184-209 | once every package in the list has been visited the list holds exactly the reachable names |
| `Discovery.FrontierBounded` | tools/solve.c:184-209 | a finite set of names closed under dependencies contains and bounds the list at all times |
| `Discovery.StopsReachable` | tools/solve.c:186-194 | where a run stops there is a reachable name without a version to choose |
| `Discovery.StopsOnce` | tools/solve.c:186-194 | there is at most one place where a run can stop, and one reason |
| `Discovery.ChosenIsMaximum` | tools/solve.c:196-197 | the chosen version is an offered one, and of regular offered versions none is greater |
| `Choice.SpoiledList` | tools/solve.c:132-160 | an irregular version that is added behind the two of its circle becomes the head, although one behind it is greater |
| `Choice.HeadExactly` | tools/solve.c:132-160 | an accepted version is regular if and only if inserting it into a list of regular ones always leaves a head greater than all others |
| `Choice.SpoiledChoice` | tools/solve.c:184-197 | a run chooses an irregular version although a greater one is offered, if the callback offers the three in this order |
| `Choice.ChoiceExactly` | tools/solve.c:184-197 | an accepted version is regular if and only if, in whatever run it is offered beside regular ones, the chosen version is greater than all others offered |
| `Solve.SolveProblem.PkgLookup` | tools/solve.c:247-257 | finds the package of a name, or null exactly if there is none |
| `Solve.SolveProblem.PkgAdd` | tools/solve.c:259-289 | returns the package of a name, appending an empty one only if there was none |
| `Solve.SolveProblem.ConstraintAdd` | tools/solve.c:78-87 | the constraint is a bare name that is added to the list of packages |
| `Solve.SolveProblem.InsertVersion` | tools/solve.c:115-161 | the walk inserts the version at the place of the model's order, with its dependencies in reverse, or leaves the list as it was |
| `Solve.SolveProblem.PackageVersionAdd` | tools/solve.c:89-172 | adds one version to one package, leaves all others and everything chosen alone, and keeps all lists sound |
| `Solve.SolveProblem.GetPkt` | tools/solve.c:186-190 | the callback adds its versions in order and fails or aborts exactly if one of them or its report does |
| `Solve.SolveProblem.VisitPackage` | tools/solve.c:184-209 | one round chooses the head and appends its new dependencies, or stops as the model's outcome says |
| `Solve.SolveProblem.Walk` | tools/solve.c:184-209 | the loop over the growing list ends and returns what reachability says |
| `Solve.SolveProblem.SolveRun` | tools/solve.c:174-217 | a first run succeeds exactly if all reachable names have a version to choose, and then the list is exactly those names with their heads chosen, and holds every dependency of every chosen version; it fails or aborts exactly as the first package without a choice does; later runs are refused and change nothing |
| `Solve.SolveProblem.ResultPackage` | tools/solve.c:219-245 | the n-th package with a chosen version, or none behind the last |
| `Solve.SolveProblem.PicksAll` | tools/solve.c:219-245 | after a successful run the results are all packages in the order of the list |
| `WithPkgs.RepoOutcome` | tools/withpkgs.c:125-172 | exactly the packages of the repository can be chosen, in the first version listed, and nothing aborts |
| `WithPkgs.RepoDeps` | tools/withpkgs.c:142-162 | the dependencies that a run follows from a name of the repository are those of the first version listed for it, in reverse |
| `WithPkgs.NeededIsReachable` | tools/withpkgs.c:125-172 | a run reaches exactly the names to which a path of dependencies of first versions leads from a constraint |
| `WithPkgs.RepoBounds` | tools/withpkgs.c:125-172 | the initial names and the dependencies of all first versions bound every run on a repository |
| `WithPkgs.SolveFromRepo` | tools/withpkgs.c:63-68 | running a solver on a repository never aborts, and succeeds exactly if every reachable name is in it |
| `WithPkgs.BuildCommand` | tools/withpkgs.c:47-75 | there is a command line exactly if the repository holds all needed packages, and it names exactly those, each once, in discovery order and in the first version listed |
| `WithPkgs.GetPkg` | tools/withpkgs.c:125-172 | the loop that never advances the version does to the solver what the model's answer says |
| `WithPkgs.BuildArgs` | tools/withpkgs.c:188-230 | both passes agree, and the array is filled exactly: fixed arguments, two for each package, the old ones, one NULL |
| `WithPkgs.CommandAt` | tools/withpkgs.c:206-227 | what stands at each place of the command line: fixed arguments, `-p` and name, comma, version for each package, the old arguments, NULL |
| `WithPkgs.PairCuts` | tools/withenv.c:103-114 | cut at its first comma, the argument of a package whose name has no comma yields name and version |
| `FileTree.AtPart` | tools/withenv.c:479-575 | one directory entry adds itself and what lies below it, and touches no other path |
| `FileTree.FitsPart` | tools/withenv.c:494-502 | the paths of a directory fit the buffer exactly if those of each entry do |
| `FileTree.ChildClash` | tools/withenv.c:508-530 | an entry that is a directory clashes exactly if its own entries clash with what the destination holds below it |
| `WithEnv.FileSystem.Append` | tools/withenv.c:504-506 | slash, name and NUL are written behind the first bytes and inside the buffer |
| `WithEnv.FileSystem.LinkEntry` | tools/withenv.c:478-577 | one entry is skipped, linked or merged, or the whole directory cannot be linked and only its own entries were added |
| `WithEnv.FileSystem.LinkTree` | tools/withenv.c:455-591 | succeeds exactly if all paths fit and only directories meet, adds exactly the tree with links to root, slash, relative path, and restores the buffer |
| `WithEnv.FileSystem.PathParts` | tools/withenv.c:593-632 | the buffer holds the parts separated by slashes, or there is none exactly if one part with its slash is longer than the buffer |
| `WithEnv.FileSystem.LinkPackageTree` | tools/withenv.c:401-430 | a missing tree is skipped, a file in its place fails, a directory is linked |
| `WithEnv.FileSystem.LinkPackage` | tools/withenv.c:382-392 | linking the three trees of a package succeeds exactly if the package fits and clashes with nothing |
| `WithEnv.FileSystem.LinkPackages` | tools/withenv.c:360-399 | succeeds exactly if the trees are new and no package has a file for a tree, a path that is too long, or a file where another has anything; then every entry of every package is there and nothing else; no new path has a name with a dot in front, also if it fails |
| `Overlay.NextPackage` | tools/withenv.c:382-392 | a package can be linked on top of earlier ones exactly if all of them together are mergeable |
| `Dots.LookupMeans` | tools/withenv.c:479-483 | exactly the paths of entries none of whose names starts with a dot are linked |
| `Dots.NothingHidden` | tools/withenv.c:479-483 | nothing that is new has a name with a dot in front behind the destination directory |
| `Dots.EverythingElse` | tools/withenv.c:508-570 | every other entry is in the result, a directory as one and a file as a link to its path |
| `Dots.StrippedLinks` | tools/withenv.c:479-483 | removing all entries whose names start with a dot changes neither whether a tree can be linked nor the result |
| `Dots.StrippedMerge` | tools/withenv.c:382-392 | nor does it for packages |
| `Dots.MergeableMeans` | tools/withenv.c:382-392 | the condition for success, said of the entries of the package trees alone |
| `Overlay.UnionMeans` | tools/withenv.c:559-570 | a file of mergeable packages belongs to one of them and is linked to its path there; directories are shared |
| `Overlay.Confluent` | tools/withenv.c:382-392 | success and the resulting tree do not depend on the order of the packages |
| `Overlay.SameResult` | tools/withenv.c:382-392 | the same packages in any two orders turn the same destination into the same tree |
| `ControlNodes.FieldNode.Link` | tools/controlparse.c:132-138 | appending a line keeps the list free of cycles, with both pointers null or at its ends |
| `ControlNodes.ParaNode.Link` | tools/controlparse.c:102-108 | so does appending a field |
| `ControlNodes.Parser.Link` | tools/controlparse.c:73-78 | so does appending a paragraph |
| `ControlNodes.Parser.Line` | tools/controlparse.c:41-141 | every line, also a refused one, keeps all three kinds of lists free of cycles and sharing and their `last` pointers at their ends; accepted are exactly the lines that the step of the model accepts, what the lists hold changes as it says, and a refused line leaves at most a new empty paragraph |
| `ControlFile.StepStructured` | tools/controlparse.c:41-141 | an accepted line keeps every paragraph with a field, every field with a line, every line trimmed and only first lines empty |
| `ControlFile.RunStructured` | tools/controlparse.c:41-141 | so does any run of accepted lines |
| `ControlFile.NoEmptyList` | tools/controlparse.c:110-138 | after accepted lines no list of fields or lines is empty, and the node at its `last` pointer has no successor |
| `ControlFile.SqueezeKeeps` | tools/controlparse.c:51-62 | comments, repeated blank lines and leading blank lines change neither acceptance nor the structure |
| `Paragraphs.CommentLine` | tools/controlparse.c:51-53 | a line that starts with a number sign changes nothing |
| `Paragraphs.BlankLine` | tools/controlparse.c:55-62 | a line of white space ends the paragraph |
| `Paragraphs.IndentedLine` | tools/controlparse.c:110-138 | a text behind white space becomes one more line of the last field, or is refused where a paragraph starts |
| `Paragraphs.FieldStart` | tools/controlparse.c:66-112 | a name, a colon and a text become a new field at the end of the paragraph, in a new paragraph behind a break |
| `Paragraphs.OtherLine` | tools/controlparse.c:84-88 | any other line is refused |
| `Paragraphs.BlankSeparates` | tools/controlparse.c:55-79 | lines in front of and behind a blank line are accepted exactly if both are on their own, and give the paragraphs of the first and then of the second |
| `Paragraphs.OneParagraph` | tools/controlparse.c:66-79 | lines none of which is blank make at most one paragraph |
| `Paragraphs.ParseSeparates` | tools/controlparse.c:149-202 | the same for texts with a blank line between them |
| `Paragraphs.ParseOne` | tools/controlparse.c:149-202 | a text without a blank line has at most one paragraph |
| `Paragraphs.LinesOfText` | tools/controlparse.c:178-183 | the lines of a text put together are the text, and each but the last ends with a newline |
| `ControlFile.ParseFd` | tools/controlparse.c:149-202 | the lines of a text are parsed one by one up to the first error, into lists that are intact and hold the parsed paragraphs |
| `Control.ParseDeplist` | tools/control.c:276-312 | the non-empty lines in order, refused exactly if the list is not empty yet |
| `Control.ParseBuiltFromList` | tools/control.c:314-366 | the non-empty lines cut at their first space, refused if one has none or the list is not empty yet |
| `Control.ControlParseFd` | tools/control.c:34-92 | reads the record of the one paragraph, or fails exactly as the model does |
| `Control.RecordParts` | tools/control.c:60-84 | in an accepted record package, version and source pair come from the only line of the only field of their name, and the lists are all non-empty lines of the fields of theirs, in order, built-from lines cut at their first spaces |
| `ControlRules.BinaryAccepted` | tools/control.c:34-92 | a binary control file is accepted exactly if it has one paragraph, with fields of the five names, each of its form, and none given again behind one with content |
| `SourceControl.ParseBin` | tools/control.c:176-222 | one package paragraph, with a copy of the common run dependencies behind its own |
| `SourceControl.SourceControlParseFd` | tools/control.c:120-232 | reads the source record and all packages, or fails exactly as the model does |
| `SourceControl.BinDepends` | tools/control.c:188-222 | every package has its own paragraph's run dependencies followed by those of the first paragraph |
| `ControlRules.SourceAccepted` | tools/control.c:120-232 | a source control file is accepted exactly if its first paragraph has fields of the six names and the others fields of the two, each of its form, and none given again behind one with content |
| `ControlRules.SourceParts` | tools/control.c:146-197 | every part of a source record comes from the lines of the fields of its name in the first paragraph, and there is one package for each further paragraph, in order |
| `GenControl.Generate` | tools/gencontrol.c:57-91 | prints the first package of the given name, or reports that there is none |
| `GenControl.ParsedOk` | tools/control.c:34-92 | whatever is read from any text consists of strings that can be printed |
| `GenControl.ParsePrinted` | tools/gencontrol.c:65-91 | printed text is parsed into one paragraph with the printed fields in order |
| `GenControl.RoundTrip` | tools/gencontrol.c:65-91 | a printable record is read back unchanged |
| `GenControl.RoundTripExactly` | tools/gencontrol.c:65-91 | exactly the printable records are |
| `Pipeline.ParsedSourceOk` | tools/control.c:120-232 | every string read from a source control file, from its first paragraph or a package's, is a non-empty trimmed line |
| `Pipeline.GeneratedReadsBack` | tools/gencontrol.c:65-91 | a generated control file reads back unchanged exactly if source name and version make a pair, which they do if the name has no space, and the strings from the command line can stand in it |
| `Pipeline.GenControlFile` | tools/gencontrol.c:43-91 | gencontrol writes a file exactly if the source file is accepted and has the package; reading it yields the requested name, the version kept, replaced or extended as asked for, the source pair, own and common dependencies, and the extra built-from list |

## Left out

- Linked lists: those of the solver and those of the records that `control.c` builds are sequences; the lists of `controlparse.c` are nodes with pointers.
- Control.ParseBuiltFromList: the line that the C code cuts in place at its space is left as it is; each line is read once, so nothing sees the cut.
- Solve.SolveProblem.GetPkt: the callback adds versions only under the name it is asked for, and stops at the first addition that fails, as `get_pkg` of both tools does.
- Solve.SolveProblem.SolveRun: the callback is a function from names to answers, which loses nothing since each name is asked for at most once in a run, but it can add versions only under the name it is asked for.
- Solve.SolveProblem.ResultPackage: an index beyond the number of chosen packages is excluded if packages without a chosen version end the list, where the C code follows a null pointer.
- WithPkgs.GetPkg: a repository package without versions is excluded, where the C code follows a null pointer; reading the repository's directories is a map from names to versions.
- WithEnv.FileSystem.PathParts: the C code never reduces the space it compares with, so that the parts in front of the first refused one fit the buffer together is a precondition.
- WithEnv.FileSystem.LinkPackageTree: so is, for a mounted package, that the path of each of its trees fits.
- WithEnv.FileSystem.LinkEntry: `fstatat` follows symbolic links, so that a link to a directory which the destination held before would be entered; in the model a link is never a directory. Links made by `link_packages` itself point to plain files.
- WithEnv.FileSystem.LinkTree: the same holds for the whole tree; source entries are plain files and directories, no other system call fails, and directory descriptors are paths.
- GenControl.Generate: a package paragraph without a name in front of the wanted one is excluded, since the C code compares a null string there; what `printf` writes for a source without name or version is a parameter.
- An empty epoch such as `:1` is accepted with epoch zero, the reading of C libraries that leave `errno` alone when there is nothing to convert.
- Characters outside ASCII, embedded NULs, locales other than C, allocation failure, destructors and messages.
- Widths other than those of LP64; the 32-bit counters of `solve_result_package` and `build_args` are unbounded.
- Mounts, namespaces, option parsing, `pkgbuild`, `repo.c`, and the shell scripts: system calls and text processing without an algorithm of their own.
