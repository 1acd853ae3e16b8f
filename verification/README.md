# typst-package-review, modelled in Dafny

`typst-package-review` is a command-line helper for people who review
pull requests to the Typst package registry. It is invoked as

    review|fetch|install <name>:<version>[,] [and] ... #<pr-number>
    clean

- `fetch` checks out the pull request into a local git branch. The branch
  is named after the packages and the PR number.
- `install` copies every package from the registry checkout into the local
  Typst package cache. It honours the exclude globs of each package's
  `typst.toml`. Then it tests every package that has a template: it runs
  `typst init`, compiles the template and opens the PDF.
- `review` does both.
- `clean` empties the package cache and the `test` directory, and deletes
  every local branch but `main`.

The model covers the core of `review/src/main.rs`:

- argument handling (`run`'s command dispatch and the re-tokenising of the
  arguments; `parse_args`);
- the branch name (`Args::branch_name`) and the package spec
  (`Package::spec`);
- `Cmd::fetch` and `Cmd::install`;
- `install_package`: exclude-glob preprocessing, removal of the previous
  copy, and the copy loop over the directory walk;
- `test_package`, as the sequence of external commands it runs;
- `run`: the install loop, which stops at the first error, and the test
  loop, which keeps the first error and still tests every package.

The program's effects are modelled as values:

- The package cache is a map from paths to file contents (`Installer.Files`).
- The cache is held by the class `Installer.PackageCache`, whose methods
  update it in place.
- The world outside the cache is given as parameters:
  - the manifest reader, the glob compiler and the directory walk;
  - whether a removal or a copy succeeds;
  - the git checkout, `create_dir_all("test")` and the outcome of each
    external command.
- `run` returns the list of effects it starts (`Runner.Event`), next to its
  result and the new cache.

Modules:

- `Base`: `Option`, `Result`, `u32` and the error kinds.
- `Text`: the string operations of the Rust standard library that the
  program uses: `u32` parsing, `trim_end_matches`, `trim_start_matches`,
  `split_once`, `split`, `join`.
- `Cli`: commands and `parse_args`.
- `Naming`: the branch name and the package spec.
- `Installer`: `install_package`.
- `Runner`: `test_package` and `run`.

Where the code and the intended design differ, the model follows the code:

- `#0` is accepted as a PR number, and a `+` sign and leading zeros are
  accepted too (`"#+007"` is PR 7). This is how `u32`'s `FromStr` behaves.
- The same package may be named twice. It is then installed and tested twice.
- The branch name identifies a session only when no package name contains
  `_` and no name or version contains `,`. `Naming.BranchNameCollision`
  shows two sessions that share a branch. Registry package names never
  contain `_`.
- Once `test` exists, a test failure does not stop the loop: every package
  is tested, and the first failure is the result.

## Model

| member | source | states |
|---|---|---|
| Cli.PhaseCoverage | review/src/main.rs:65-77 | every command runs at least one phase; only `review` runs both; `fetch` fetches exactly when the command is not `install`, and installs exactly when it is not `fetch` |
| Cli.CommandWords | review/src/main.rs:87-93 | each command's word selects that command, and no command word is "clean" |
| Cli.ParseCommand | review/src/main.rs:87-93 | a word that selects a phase command is exactly that command's word |
| Cli.Tokens | review/src/main.rs:95-96 | the tokens are non-empty and contain no space, and together they spell the arguments' non-space characters in order; they break only at spaces: for any space-free pieces that join with spaces to the joined arguments, the tokens are exactly the non-empty pieces |
| Cli.TokenizeWords | review/src/main.rs:95-96 | arguments that are already non-empty and space-free come back unchanged |
| Cli.ParsePackageTokens | review/src/main.rs:145-156 | the token loop returns exactly the package list of the reference parser: "and" skipped, `name:vers` split at the first ':', the first token without ':' reported |
| Cli.ParseArgs | review/src/main.rs:133-159 | fewer than two tokens, a last token without '#', an invalid number and a malformed package token each give their own error, checked in that order; otherwise the packages and the PR number |
| Cli.PackagesFailEarly | review/src/main.rs:145-156 | once a prefix of the tokens fails, the whole list fails with the same error: later tokens are never looked at |
| Cli.ClassifyToken | review/src/main.rs:146-156 | a token is "and" after trimming, or splits at ':', or is malformed; a well-formed token yields exactly its trimmed text as `name:vers` |
| Cli.PackagesStep | review/src/main.rs:146-156 | parsing succeeds exactly when the prefix succeeds and the last token is well formed |
| Cli.PackagesOkWhenWellFormed | review/src/main.rs:145-156 | the package tokens parse exactly when every one of them is "and" or contains ':' |
| Cli.PackagesMatchTokens | review/src/main.rs:146-156 | on success there is one package per non-"and" token, in order, and its `name:vers` is that token with its trailing commas removed |
| Cli.PackagesFirstMalformed | review/src/main.rs:152-154 | on failure, the error names the first malformed token (trimmed), and every earlier token is well formed |
| Cli.ClassifyPackageToken | review/src/main.rs:147-155 | `name:vers` followed by any number of commas reads back as that package, when the name has no ':' and the version does not end in ',' |
| Cli.ParseArgsShape | review/src/main.rs:134-158 | fewer than two tokens are refused; on success the last token is '#' followed by text that parses to the PR number, and there are no more packages than earlier tokens |
| Cli.PrNumberFromLastToken | review/src/main.rs:137-143 | two successful parses ending in the same token agree on the PR number, and a bad last token gives the same error whatever precedes it |
| Cli.PackageTokensRoundTrip | review/src/main.rs:145-156 | writing packages as `name:vers` tokens and parsing them back gives the same packages, when no name contains ':' and no version ends in ',' |
| Cli.ParseSessionTokens | review/src/main.rs:133-159 | a session with at least one package, written as package tokens plus `#<pr>`, parses back to the same packages and PR number |
| Cli.ParseNoPackage | review/src/main.rs:134-158 | "and #5" is accepted as a session with no package; a last token without '#' is refused with that token |
| Text.ParseDecimal | review/src/main.rs:141 | parsing the decimal form of a `u32`, with or without '+', gives it back |
| Text.ParseCanonical | review/src/main.rs:141 | a numeral without sign or leading zero is accepted only as the decimal form of its value |
| Text.ParseLeadingZero | review/src/main.rs:141 | a leading zero does not change the parsed value |
| Text.ParseRejects | review/src/main.rs:141 | a '-' sign, a doubled '+', a lone '+' and the empty string are refused |
| Text.TrimEndCommas | review/src/main.rs:147 | the result is a prefix of the token with no trailing ',', and only commas were removed |
| Text.TrimmedDotSlashes | review/src/main.rs:240 | the pattern is some number of "./" followed by the result, and the result does not start with "./" |
| Text.SplitOnceOf | review/src/main.rs:152 | text with a ':'-free left part splits at the first ':' into exactly those two parts |
| Text.SplitJoin | review/src/main.rs:95-96 | splitting a join of separator-free words at the separator gives the words back |
| Text.JoinSplit | review/src/main.rs:95-96 | joining the pieces of a split at the same separator gives the text back |
| Text.ParseU32 | review/src/main.rs:141 | `u32::from_str`: an optional '+', then one or more ASCII digits whose value fits in 32 bits; its behaviour is stated by Text.ParseDecimal, Text.ParseCanonical, Text.ParseLeadingZero and Text.ParseRejects |
| Text.TrimLeadingDotSlash | review/src/main.rs:240 | `trim_start_matches("./")`: every leading "./" removed; stated by Text.TrimmedDotSlashes |
| Text.SplitOnce | review/src/main.rs:152 | `split_once(':')`: the parts before and after the first separator, or nothing when there is none; the left part holds no separator and the parts rejoin to the text; Text.FirstSeparator and Text.SplitOnceOf state that the split is unique |
| Cli.Tokenize | review/src/main.rs:95-96 | the arguments joined with spaces, split at every space, empty pieces dropped; stated by Cli.Tokens and Cli.TokenizeWords |
| Cli.Cmd.Fetches | review/src/main.rs:65-70 | `Cmd::fetch`: true for `review` and `fetch`; stated by Cli.PhaseCoverage |
| Cli.Cmd.Installs | review/src/main.rs:72-77 | `Cmd::install`: true for `review` and `install`; stated by Cli.PhaseCoverage |
| Naming.BranchName | review/src/main.rs:22-33 | the buffer loop builds the pieces `name_vers` joined by ',', followed by `_#` and the decimal PR number |
| Naming.BranchNameSuffix | review/src/main.rs:22-33 | the name always ends in `_#<pr>`; with no package it is exactly that |
| Naming.BranchNamePrNumber | review/src/main.rs:22-33 | two sessions with the same branch name have the same PR number, whatever their packages |
| Naming.BranchNameInjective | review/src/main.rs:22-33 | the same branch name means the same packages in the same order and the same PR number, provided no name contains '_' and no name or version contains ',' |
| Naming.BranchNameCollision | review/src/main.rs:22-33 | without that proviso two different sessions share a branch (`a_b:c` and `a:b_c`) |
| Naming.Spec | review/src/main.rs:43-46 | `Package::spec`: `@preview/<name>:<vers>`; stated by Naming.SpecNamesPackage and Naming.SpecOfParsedPackage |
| Naming.SpecNamesPackage | review/src/main.rs:43-46 | the spec is `@preview/` followed by text that splits at its first ':' into the name and the version |
| Naming.SpecOfParsedPackage | review/src/main.rs:43-46 | for a parsed package the spec is `@preview/` plus the reviewer's own token without trailing commas |
| Installer.TargetsDisjoint | review/src/main.rs:218-220 | with name and version each taken as one path component, two different packages install into directories that share no file |
| Installer.BuildOverrides | review/src/main.rs:235-243 | the exclude loop returns exactly the reference override list, or the error of the first refused pattern |
| Installer.OverridesFailEarly | review/src/main.rs:236-243 | a refused pattern stops the loop: later patterns are never checked |
| Installer.OverridesOk | review/src/main.rs:236-243 | the overrides are built exactly when no pattern starts with '!' and every inverted pattern compiles; the i-th override is then '!' and the i-th pattern without its leading "./" |
| Installer.OverridesFirstError | review/src/main.rs:237-242 | on failure, the error is that of the first refused pattern, and every earlier one is accepted |
| Installer.InvertedStripsDotSlash | review/src/main.rs:240-241 | an override starts with '!', is not followed by "./", and ignores a leading "./" on the pattern |
| Installer.Cleared | review/src/main.rs:248-254 | removing a directory drops exactly the files under it and keeps the rest with their contents |
| Installer.FileEntriesFromWalk | review/src/main.rs:257-276 | every copied file comes from a regular-file entry of the walk with that entry's bytes, and every regular-file entry is copied |
| Installer.FirstFailure | review/src/main.rs:257-276 | the index of the first traversal error or failed copy: every earlier item goes through |
| Installer.CopyWalkResult | review/src/main.rs:257-276 | the copy loop copies the entries before the first failing one and no others; it succeeds exactly when none fails, else reports that item's error |
| Installer.CopyWalkStops | review/src/main.rs:257-276 | a failure stops the copy loop: later items change nothing |
| Installer.PackageCache.Clear | review/src/main.rs:248-254 | the cache afterwards is the old cache with the directory removed |
| Installer.PackageCache.CopyEntries | review/src/main.rs:257-276 | the loop leaves the cache and outcome of the reference copy loop |
| Installer.PackageCache.InstallPackage | review/src/main.rs:217-279 | the cache and result of the reference install: manifest, overrides, removal of the old copy, copy loop |
| Installer.InstallReplaces | review/src/main.rs:247-278 | after a successful install the result is the manifest read; the package directory holds exactly the walked files; everything else is unchanged |
| Installer.InstallFailure | review/src/main.rs:228-276 | nothing outside the package directory changes; a bad manifest, a refused pattern or a failed removal changes nothing and reports that error; a failed copy leaves only files walked before the failure |
| Installer.InstallKeepsOthers | review/src/main.rs:217-279 | with name and version each taken as one path component, installing one package keeps every file of another package |
| Runner.TestActions | review/src/main.rs:285-313 | the commands `test_package` runs: none without a template; otherwise removal of `test/<name>` when it exists, `typst init` of the package spec into it, compiling the entrypoint and opening its PDF; stated by Runner.TestPackageSteps |
| Runner.TestPackage | review/src/main.rs:281-317 | those commands run in order until the first failure, whose error is the result; stated by Runner.PerformStops and Runner.TestPackageSteps |
| Runner.PerformStops | review/src/main.rs:296-313 | the steps run in order up to and including the first failing one, and its error is the result |
| Runner.TestPackageSteps | review/src/main.rs:281-317 | without a template nothing runs and the test passes; a passing test with a template ends with `typst init` of the package's spec into `test/<name>`, compiling the entrypoint there and opening it |
| Runner.TestAll | review/src/main.rs:122-127 | the test loop returns the reference latch result and the steps of every package's test |
| Runner.TestPhaseSplit | review/src/main.rs:122-127 | testing two lists in turn is testing their concatenation, and the first error wins |
| Runner.TestPhaseSnoc | review/src/main.rs:122-127 | one more package: its test runs, and its outcome counts only when every earlier test passed |
| Runner.TestPhaseFirstError | review/src/main.rs:122-127 | the loop succeeds exactly when every test does; otherwise its error is that of the first failing test |
| Runner.InstallAll | review/src/main.rs:115-117 | the install loop leaves the cache, manifests and tried packages of the reference loop |
| Runner.InstallPhaseStops | review/src/main.rs:115-117 | the first failed install stops the loop: later packages are not tried |
| Runner.InstalledKept | review/src/main.rs:217-279 | with name and version each taken as one path component, installing a different package keeps a package installed |
| Runner.InstallPhaseManifests | review/src/main.rs:115-117 | on success every package was tried, and the i-th manifest is the i-th package's manifest |
| Runner.InstallPhaseInstalled | review/src/main.rs:115-117 | on success every package is installed at the end (an earlier package's files survive later installs, with name and version each taken as one path component) |
| Runner.InstallPhaseTried | review/src/main.rs:115-117 | a successful install loop tried every package, in order |
| Runner.InstallPhaseFirstError | review/src/main.rs:115-117 | on failure some package failed after all earlier ones succeeded; its error and the cache it left are the loop's, and no later package was tried |
| Runner.InstallAndTestAll | review/src/main.rs:113-128 | the install and test phases leave the reference result, cache and effects |
| Runner.Run | review/src/main.rs:80-131 | the reference result, cache and effects of a whole run, with `clean` included |
| Runner.InstallAndTestEvents | review/src/main.rs:112-127 | only installs, creating `test` and test steps happen; tests start only after every install succeeded; a failed install is the result and nothing else happens |
| Runner.InstallAndTestOk | review/src/main.rs:112-127 | success exactly when every install, the creation of `test` and every package's test succeed; then every package is installed |
| Runner.RunInputErrors | review/src/main.rs:82-97 | no effect is started exactly when the command is missing or unknown or the arguments do not parse; the run then fails and the cache is unchanged |
| Runner.SessionFetchFirst | review/src/main.rs:106-110 | fetching commands check out the session's branch and PR first and only then go on; a failed checkout ends the run with its error |
| Runner.SessionFetchOnly | review/src/main.rs:106-113 | `fetch` only checks out: the cache is unchanged |
| Runner.SessionOk | review/src/main.rs:106-130 | a run succeeds exactly when every phase its command asks for succeeds; an installing run then leaves every package installed |

## Left out

- Git (`checkout_pr`, `checkout_branch`, `remove_other_branches`): the model
  keeps only the outcome of the checkout, as a parameter taking the branch
  name and the PR number. Deleting the old branch, fetching the ref and
  switching branches are not modelled.
- Reading and parsing `typst.toml`: this is a parameter from the package
  directory's manifest path to a manifest or an error. The manifest keeps
  only `exclude` and the template entrypoint.
- Glob compilation: a parameter says whether an inverted pattern compiles.
  A failure of `builder.build()` after every pattern was accepted is not
  modelled.
- The directory walk of the `ignore` crate (hidden and git-ignored files,
  how overrides filter it, the order of entries): a parameter gives the
  entries, or traversal errors, for the package directory and the
  overrides.
- The file system has files only. Directories, `create_dir_all` of a parent
  directory, and partially written files are not modelled. A failed parent
  creation and a failed copy are one condition, the `copyOk` parameter.
- A failed `remove_dir_all` is modelled as removing nothing. A partial
  removal is not modelled.
- Installer.TargetsDisjoint: holds only because the model keeps the name
  and the version as one path component each. `PathBuf::extend` splits a
  name or version holding '/' into several components, "." and ".." move
  within the tree, and an absolute version replaces the whole path; the
  argument parser accepts any such text. So `a/b:c` and `a:b/c` install
  into the same directory, which the model does not capture.
- Installer.InstallKeepsOthers: carries the same proviso as
  Installer.TargetsDisjoint: one path component each for name and version.
- Runner.InstalledKept: the same proviso.
- Runner.InstallPhaseInstalled: the same proviso, for packages other than
  the last one installed.
- Path components are kept whole. `PathBuf::push` treats '/', '..' and
  absolute components specially; the model does not.
- `template_dir.exists()`, the external commands and `create_dir_all("test")`
  are parameters. So are the user's data directory and the process
  arguments.
- Panics from `expect` (no data directory, non-UTF-8 paths, a process that
  cannot start) are not modelled.
- Runner.TestActions: the PDF step carries the entrypoint, not the path with
  its extension changed to `.pdf`.
- Runner.RunSpec: `clean` empties the package cache only when it succeeds,
  and a failed clean leaves the cache unchanged. Clearing `test` and
  removing branches are folded into the one clean outcome.
- Printed messages, colours, the exact error texts and `main`'s exit code
  are not modelled. Errors are kept as kinds with the offending value.
- Naming.BranchNameInjective: holds only for packages with no '_' in the
  name and no ',' in name or version. Naming.BranchNameCollision shows why.
