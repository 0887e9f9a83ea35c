# govet core, modelled in Dafny

govet is a configurable Go vet tool. A `govet` configuration file registers
named checkers: each is a goastch pattern and a message. The file also says
which checkers run globally, which paths are ignored, and which packages or
files use their own set of checkers (overrides).

The tool has two halves, and the model covers both.

- **Configuration** (`config/config.go`). `parse` runs four stages in order
  and stops at the first error:
  - `parseBasic`: the error budget ("choke"), the module path chosen by
    GO111MODULE from `go.mod`, and the checker registry;
  - `parseIgnored`: the ignore set;
  - `parseEnabled`: the globally enabled checkers;
  - `parseOverride`: the per-path override tables.

  The module `Policy` states each stage's result as a function of the raw
  configuration. The class `Config.Config` fills its fields with the source's
  loops, and each stage is proved to produce exactly that function's result.
  `GoMod` models the byte-level `modulePath` reader together with `bytes.Index`
  and `bytes.Fields`. `Paths` models the `strings` and `path/filepath` helpers
  that the core uses.
- **Vetting** (`vet/vet.go`). The class `Vet.Vet` has the source's
  `ErrorLimit`, `Schedule`, `Errors` and `pkgPath` fields.
  - `growSchedule` walks the directory tree and appends checks to `Schedule`.
    The module `Schedule` states what it appends as a plan of units:
    - one unit per overridden file;
    - one package unit per directory that has plain files left, placed last.

    Each unit expands into one check per checker. The order within a unit
    follows Go's map iteration and is not fixed.
  - `Do` runs every check through the matcher and appends errors under the
    `ErrorLimit` budget. The module `Report` states the error stream of the
    schedule, how the budget absorbs it, and what `fatal` prints.

## Model

| member | source | states |
|---|---|---|
| Paths.TrimPrefix | config/config.go:188 | strings.TrimPrefix drops the prefix exactly when the string starts with it, and returns the string unchanged otherwise |
| Paths.CleanElement | vet/vet.go:142 | filepath.Clean leaves a listed name (non-empty, not "." or "..", no '/') unchanged |
| Paths.JoinParts | vet/vet.go:142 | filepath.Join of a clean directory and a listed name is the directory, one '/', then the name; "/" needs no separator and "." is dropped |
| Paths.JoinIsClean | vet/vet.go:142 | the joined path of a clean directory and a listed name is clean again, so every directory a walk from a clean root reaches is clean |
| Paths.JoinLeadingSlash | config/config.go:188-189 | a leading '/' on the second element (what TrimPrefix leaves of a module-qualified path) does not change the joined path |
| Paths.JoinLeadingDot | config/config.go:188-189 | a leading "./" on the second element does not change the joined path |
| Paths.JoinTrailingSlash | config/config.go:188-189 | a trailing '/' on the second element does not change the joined path |
| Paths.Base | vet/vet.go:146 | filepath.Base is never empty, and is a single path element or "/" |
| Paths.BaseOfJoin | vet/vet.go:142-146 | the base name of a listed name's joined path is the name itself, whatever the directory, so the hidden-entry test looks at the name |
| Paths.Ext | vet/vet.go:159 | filepath.Ext is empty or a '.'-led suffix of the path that has no '/' |
| Paths.ExtIsGo | vet/vet.go:159 | the extension is ".go" exactly when the path ends in ".go" |
| Paths.DirOfJoin | vet/vet.go:231 | filepath.Dir of a listed name's joined path is the clean directory that was walked |
| GoMod.Index | config/config.go:89 | bytes.Index gives the first offset where the pattern occurs, or -1 when it occurs nowhere |
| GoMod.Fields | config/config.go:98 | bytes.Fields gives non-empty words that contain no white space |
| GoMod.FieldsOfUnfields | config/config.go:98 | Fields splits words joined by single spaces back into those words |
| GoMod.ModulePath | config/config.go:88-100 | the result is empty exactly when "module" or a following newline is missing; otherwise it is the second white-space-separated field of the text from the first "module" to that newline, with no white space; callers must supply at least two fields on that line |
| GoMod.ModulePathOfDirective | config/config.go:88-100 | a go.mod that starts "module <path>\n" yields <path> |
| Policy.ToString | config/config.go:99 | string(bytes) has one character per byte, with the same value |
| Policy.SelectModulePath | config/config.go:117-145 | GO111MODULE "on" without go.mod fails with "not exist go.mod"; "off" gives ""; any other value reads go.mod when it exists and gives "" when it does not |
| Policy.RegisterSucceeds | config/config.go:159-176 | registration succeeds exactly when no name repeats (against the table or an earlier entry) and every pattern compiles |
| Policy.RegisterContents | config/config.go:159-177 | an accepted registry's keys are exactly the entry names, and each name maps to its own compiled matcher and message |
| Policy.DuplicateRejected | config/config.go:160-162 | a repeated name fails with "Duplicate checker" whatever its own pattern and every later entry would do, because the name check comes before compilation |
| Policy.CompileErrorRejected | config/config.go:163-171 | the first entry whose pattern fails to parse or generate fails registration with that error |
| Policy.IgnoredSucceeds | config/config.go:182-197 | the ignore set is accepted exactly when every path is relative and resolves to an existing path; it then holds exactly Join(Path, TrimPrefix(p, ModulePath)) for each p |
| Policy.ResolveSpellings | config/config.go:188-194 | an ignore entry written module-qualified, with a leading "./" or with a trailing '/' resolves to the same path as the bare directory name, the path the walk builds for that directory's entry; the last three spellings only when they do not themselves start with the module path, or the module path is empty |
| Policy.IgnoreAppend | config/config.go:184-195 | filling from a + b is filling from a and then, unless that failed, from b |
| Policy.IgnoredFirstError | config/config.go:185-192 | the first absolute or missing path stops the fill with its own message; the set keeps what the earlier paths added |
| Policy.UnknownName | config/config.go:207-211 | gives none exactly when every name is registered, and otherwise the first unregistered name |
| Policy.Select | config/config.go:269-276 | the table of the listed names holds exactly those names, each with the registry's checker |
| Policy.Without | config/config.go:215-225 | the table holds exactly the registry's names that are not skipped, each with the registry's checker |
| Policy.EnabledTable | config/config.go:199-233 | both lists together fail; an unknown `enabled` name fails naming it; otherwise the result is the registry minus the `disabled` names, or the whole registry when there is no `disabled` list; every value is the registry's own checker |
| Policy.OverrideEntry | config/config.go:246-288 | the checks run in the code's order, each error stated: both lists, both targets, no target, then "Path does not exist" for a missing target, then the empty error for an unknown `enabled` name; a success yields the target path and either exactly the `enabled` checkers or the registry minus the `disabled` ones |
| Policy.OverrideAppend | config/config.go:245-290 | filling from a + b is filling from a and then, unless that failed, from b |
| Policy.OverrideFirstError | config/config.go:245-290 | the first bad entry stops the fill with its own error; the table keeps what the earlier entries wrote |
| Policy.OverrideSucceeds | config/config.go:245-290 | the override table is accepted exactly when every entry is |
| Policy.OverrideKeys | config/config.go:289 | an accepted table's paths are the earlier paths plus every entry's target, and the paths no entry targets keep their tables |
| Policy.OverrideLastWins | config/config.go:289 | each target path maps to the table of the last entry that targets it |
| Config.Config.constructor | config/config.go:50-52 | a fresh configuration has empty tables and the given root |
| Config.Config.ParseBasic | config/config.go:102-180 | the choke limit is always stored; a module-path failure returns before Path, ModulePath and Checkers are stored; otherwise Checkers becomes the registration's result, or is left as it was and the registration's error is returned |
| Config.Config.ParseIgnored | config/config.go:182-197 | Ignored and the error are exactly IgnoreFrom's, starting from an empty set |
| Config.Config.Pick | config/config.go:206-213 | reports the first unregistered name; when there is none, the table is exactly the listed names' checkers |
| Config.Config.Merge | config/config.go:215-230 | the result is the given table plus every registered checker whose name is not skipped |
| Config.Config.ParseEnabled | config/config.go:199-233 | Enabled becomes EnabledTable's result, or is left as it was and EnabledTable's error is returned |
| Config.Config.ParseOverride | config/config.go:235-293 | Override and the error are exactly OverrideFrom's, starting from the table as it was |
| Config.Config.Parse | config/config.go:75-86 | the four stages run in order; each later stage runs only when the earlier ones succeeded, and the error is the first failing stage's |
| Ast.PositionString | vet/vet.go:108 | token.Position.String is never empty: "-" when there is no file and no line, the file name alone when there is no line |
| Ast.PositionWithLine | vet/vet.go:108 | a position with a positive line renders as "file:line" (or "line" without a file) followed by ":column" when the column is set, with the line in decimal digits that read back as the line |
| Ast.DigitsRoundTrip | vet/vet.go:108 | the printed line and column numbers read back as the numbers |
| Schedule.Seal | vet/vet.go:177-187 | the directory has a package unit exactly when plain files remain |
| Schedule.ScanAppend | vet/vet.go:141-176 | walking a + b is walking a, then walking b |
| Schedule.ScanFrom | vet/vet.go:141-176 | walking the listing from entry i is one step on entry i, then walking the rest |
| Schedule.PlanOfWalk | vet/vet.go:134-189 | a directory's plan is the units of its walk followed by its package unit, if any |
| Schedule.PlanExpands | vet/vet.go:134-189 | the checks for the walk followed by those for the package unit are the checks for the plan |
| Schedule.ExcludedIsInert | vet/vet.go:143-153 | an ignored entry, an entry whose name starts with ".", or a vendor directory adds nothing to the plan, including anything beneath it, wherever it stands in the listing |
| Schedule.PlainPathsMembers | vet/vet.go:159-175 | the plain paths of a listing are exactly the joined paths of the entries that are kept, ".go", not "_test.go" and not overridden |
| Schedule.PlainInOrder | vet/vet.go:174 | the walk appends to the files already kept exactly those plain paths, in listing order |
| Schedule.PlainFiles | vet/vet.go:159-175 | the package keeps exactly the files it already had and the joined paths of the plain entries, with the earlier files first |
| Schedule.StepSound | vet/vet.go:141-176 | one step of the walk preserves the soundness of the walk |
| Schedule.ScanSound | vet/vet.go:141-176 | walking a listing preserves the soundness of the walk |
| Schedule.PlanSound | vet/vet.go:134-189 | every planned unit follows the policy. An overridden file is a non-ignored source file with its own override table. A package is non-empty, uses the directory's override or else the global table, and holds only source files that are neither overridden nor ignored |
| Schedule.OverriddenFileScheduled | vet/vet.go:167-172 | every overridden source file that is not skipped gets a unit of its own with its override table, including an override with no checkers |
| Schedule.UnitsGrow | vet/vet.go:141-176 | the walk only appends units |
| Schedule.PackageLast | vet/vet.go:177-187 | a package unit exists exactly when some entry is plain; it comes last, after every unit from subdirectories and overridden files, and uses Override[dir] when present, else the global table |
| Schedule.PackageOf | vet/vet.go:226-244 | getPackage gives no package for no files; otherwise a package named after the first file's directory that holds exactly the given files, each as loaded for that directory |
| Schedule.EnumerationCovers | vet/vet.go:200 | an iteration order of a checker table lists every checker |
| Schedule.Batch | vet/vet.go:200-209 | one check per listed checker, in the listed order, each on the given node, info and file set with that checker's matcher and message |
| Schedule.UnitBatchIsBatch | vet/vet.go:172 | a unit's checks are the batch that appendCheck appends on the unit's node, and there are none when it has no node |
| Schedule.ExpansionAppend | vet/vet.go:201 | the checks for a + b are the checks for a, then the checks for b |
| Schedule.UnitBatchWidth | vet/vet.go:192-209 | a unit gives one check per checker, and none for a package without files |
| Schedule.ExpansionLength | vet/vet.go:192-209 | the schedule holds exactly one check per checker of each unit that has a node, whatever the iteration orders |
| Report.PositionOf | vet/vet.go:124-127 | the recorded position is the zero position when there is no node, and otherwise the node's position in the file set |
| Report.ListErrors | vet/vet.go:93-95 | a bind list gives one entry per node, in list order, each with the check's message |
| Report.BindErrorsLength | vet/vet.go:92-96 | all bind lists together give one entry per bound node, each with the check's message |
| Report.AbsorbCons | vet/vet.go:116-131 | one appendError: it crashes on a first append with a negative limit; it stops without appending when at least ErrorLimit entries, and at least one, are already held; otherwise it appends the entry and goes on |
| Report.Cap | vet/vet.go:120 | the number of entries a limit admits is the limit, but at least one |
| Report.AbsorbClosedForm | vet/vet.go:116-131 | entries are appended in stream order until the cap is reached; the run stops exactly when more entries arrive than fit |
| Report.BudgetRespected | vet/vet.go:120-122 | a run never holds more than the cap, keeps the first entries in order, and stops exactly when the stream is longer than the cap |
| Report.ZeroLimitKeepsOne | vet/vet.go:101-122 | with ErrorLimit 0 the first entry is still appended, because fatal returns on an empty list; the run stops at the second entry |
| Report.NegativeLimitCrashes | vet/vet.go:117-119 | a negative ErrorLimit crashes on the first entry (make with a negative capacity) and records nothing |
| Report.FiveFindingsOverTwo | vet/vet.go:120-122 | with ErrorLimit 2 and five findings, the first two are kept and the run stops |
| Report.LineRelative | vet/vet.go:108-110 | a position under the package path prints relative to it: "." + the rest + ":\t" + the message |
| Report.NoPositionLine | vet/vet.go:108-110 | an entry with no position prints as ".-:\t" + the message, for any package path other than "-" |
| Report.Render | vet/vet.go:107-111 | fatal prints one line per entry, in accumulation order |
| Report.Outcome | vet/vet.go:98-113 | the run is clean exactly when it finished with no entries; a run that finished with entries and a run stopped by the budget print the rendered entries, and a crash is told apart from both and prints nothing |
| Vet.Vet.constructor | vet/vet.go:62-80 | New takes the budget and the package path from the configuration, starts with no errors, and grows the schedule into exactly the checks of the configuration's plan for its tree |
| Vet.Vet.Fatal | vet/vet.go:101-114 | nothing when there are no errors, and otherwise the rendered lines |
| Vet.Vet.AppendError | vet/vet.go:116-132 | a first append with a negative limit panics; an append onto at least ErrorLimit entries, and at least one, ends the run choked without appending; otherwise exactly one entry, with its position, is appended after the unchanged earlier ones |
| Vet.Vet.AppendCheck | vet/vet.go:192-210 | a nil node leaves Schedule unchanged; otherwise Schedule keeps its prefix and grows by one check per checker, in an iteration order that lists each checker exactly once |
| Vet.Vet.GetPackage | vet/vet.go:226-244 | the package built is PackageOf's |
| Vet.Vet.GrowSchedule | vet/vet.go:134-189 | Schedule grows by exactly the checks of the directory's plan, in plan order |
| Vet.Vet.VisitAll | vet/vet.go:140-176 | the loop over the listing keeps the walk's plain files and appends exactly the checks of the walk's units |
| Vet.Vet.AppendPackage | vet/vet.go:177-188 | the tail of growSchedule appends the checks of the directory's package unit, and nothing when no plain file remains |
| Vet.Vet.Visit | vet/vet.go:142-175 | one iteration is one step of the walk: it skips the entry, recurses into it, appends its override checks, or keeps it for the package |
| Vet.Vet.IsHidden | vet/vet.go:146 | the hidden test on the joined path's base name is the entry name starting with "." |
| Vet.Vet.IsGoFile | vet/vet.go:159 | the extension test is the path ending in ".go" |
| Vet.Vet.Emit | vet/vet.go:116-131 | one appendError is the first step of absorbing its entry followed by the rest of the stream |
| Vet.Vet.RunList | vet/vet.go:93-95 | the inner loop absorbs one bind list's entries, in order |
| Vet.Vet.RunBinds | vet/vet.go:92-96 | the loop over the bind lists absorbs their entries list after list |
| Vet.Vet.RunCheck | vet/vet.go:88-96 | one check adds the matcher's error without a position, then its bound nodes |
| Vet.Vet.Do | vet/vet.go:83-99 | Errors and the outcome are exactly those of absorbing the whole schedule's error stream, check by check in schedule order, under the budget |

## Left out

- Go's map iteration order cannot be observed here. `appendCheck` and the loops
  over the registry take names in an order chosen by `:|`, and the contracts
  promise nothing about that order.
- Vet.Vet.constructor: `load` (packages.Load, type checking, PrintErrors and
  the exit on load errors) is not modelled. The loaded packages (`pkgInfos`)
  are a parameter: a map from directory to the package's name, type
  information, file set and files. The directory tree comes in as an `Entry`
  tree in place of buildutil.ReadDir, and the policy goes to growSchedule by
  value.
- buildutil.ReadDir, os.Getwd, ioutil.ReadFile and viper's UnmarshalKey never
  fail in the model: their error returns are not modelled. viper and
  os.Getenv become a raw-configuration value and an environment value. os.Stat
  becomes a set of existing paths.
- getInfo, getFset, getFile and getPackage are total over the package map.
  For a directory with no loaded package, Go dereferences a nil pointer and
  panics. The model gives a fixed handle, or a nil file, instead.
- getFile is given a base name (vet/vet.go:169). The model performs the same
  lookup, by the name's own directory.
- Config.Config.ParseOverride: `c.Override` is never allocated (config/config.go:50-52), so in Go the
  write at config/config.go:289 panics on the first accepted override entry.
  The model does the intended insert into an initially empty map.
- Config.Config.constructor: `c.Root` is never assigned in the source
  (config/config.go:263). Root is a constructor parameter.
- Paths.Clean, Paths.Join and Paths.Dir follow Unix: '/' is the only
  separator and there are no volume names.
- GoMod.Fields: only ASCII white space separates fields; Unicode spaces are
  not modelled.
- GoMod.ModulePath: `bfs[1]` is unguarded in the source, so callers must
  supply at least two fields on the module line. The out-of-range panic is
  not modelled.
- Vet.Vet.GrowSchedule: requires well-formed entry names (non-empty, not "."
  or "..", no '/'), as a directory listing gives them.
- Vet.Vet.AppendError: `make` with a negative capacity (a negative
  ErrorLimit) is modelled as the outcome Panicked.
- Vet.Vet.Fatal: colour, tabwriter alignment and os.Exit are not modelled.
  Fatal returns the printed lines, and Do returns the ending as an `Exit`
  value.
- goastch.Find, parser.ParseGer and gen.Ger are function parameters whose
  results may be errors. token.FileSet.Position is a parameter as well.
- Vet.Vet.Visit, Vet.Vet.VisitAll, Vet.Vet.AppendPackage, Vet.Vet.Emit,
  Vet.Vet.RunList, Vet.Vet.RunBinds and Vet.Vet.RunCheck are not separate
  functions in the source. They are the bodies of the loops in growSchedule
  and Do, split out as methods.
- cmd/, main.go and the checker fixtures are CLI wiring and test data, and are
  not part of this model.
