# Skills manager, modelled in Dafny

The skills manager is a command-line tool that keeps a project's `.agent/skills` directory
in step with a global repository of skills. A skill is installed by creating, in the
project directory, a symbolic link to the skill's directory in the global repository. The
tool lists skills, searches the global ones, installs and uninstalls single skills, clears
the project directory, and installs or uninstalls whole *bundles*. A bundle is a named list
of skills read from a Markdown manifest.

This project models that logic and proves what each command does:

- `wrappers.dfy` (`Wrappers`): the optional value.
- `text.dfy` (`Text`): the string operations the program relies on. These are `strip`,
  `startswith`, substring search, ASCII `lower`/`isalnum`, `find`, slicing, `split`,
  `replace(pat, '')` and code-point ordering. `sorted` of a set of strings is here too.
- `fs.dfy` (`Fs`): a directory is a map from entry names to entry kinds. The kinds are real
  directory, plain file, working link (to a directory or not) and dangling link. A path is a
  sequence of components. `pathlib`'s `parents` test is a proper-prefix test on components.
- `bundles.dfy` (`Bundles`): the manifest parser. It is a pure specification (`Parse`,
  with each line classified once into heading, item or other line). The imperative scanner
  as the program runs it is `ParseBundles`. The module also has the lemmas that say what the
  parse means, and the case-insensitive resolution of a query to one bundle.
- `search.dfy` (`Search`): the global skill names, the normaliser, the match rule, and the
  search loop.
- `project.dfy` (`Project`): each command's effect on the project listing, as functions on
  values. These are install, uninstall, doing either for a list of skills in order, the two
  bundle commands, `clear`, and the entries `list` counts. The lemmas about them are here.
- `manager.dfy` (`Manager`): class `SkillsManager`. It holds the global root and listing,
  the project directory and its listing (the one mutable field), and the manifest lines.
  Its methods run the commands step by step, loops included. Each method is proved equal to
  the matching function of `Project`.

The global repository's listing, the project's listing, both directory paths, the manifest
lines and the answer to the confirmation prompt are all parameters. The model does no I/O.
A missing directory or a missing manifest is an empty listing or an empty document. For
every command an empty listing gives the same result as a missing directory: `install`
creates the project directory and then the link, which in the model is adding the link to
the empty listing; `uninstall`, `clear` and `list` find nothing; a missing manifest has no
bundles.

The safety check is lexical. Before removing a real directory, the program asks whether
the global root is among the parents of `PROJECT/name` (`GLOBAL_SKILLS_REPO in
target.parents`). It does not resolve links, and links are never checked: removing a link
never deletes what the link points to. The check as written is `Project.GuardAsWritten`
(on top of `Fs.IsParent`). It lets the global repository itself through, because a path is
not among its own parents (see "## Findings"). The model therefore uses `Project.Guard`,
which also stops at the global root itself. `Project.GuardOfChild` proves that the check as
written gives the same answer for every name, and holds exactly when the global root is the
project directory or one of that directory's parents; the corrected check adds the one name
whose path is the global root.

## Model

| member | source | states |
|---|---|---|
| Text.Strip | skills_manager.py:230 | the result neither begins nor ends with whitespace, is no longer than the input, and is the input itself when the input has no surrounding whitespace |
| Text.StripTrims | skills_manager.py:230 | what stripping removes: the result is one slice of the input, and everything before and after that slice is whitespace (with the row above, this fixes the result for every input) |
| Text.StripAround | skills_manager.py:230 | whitespace around a text that neither begins nor ends with whitespace is exactly what stripping removes |
| Text.Find | skills_manager.py:247-248 | no index exactly when the character is absent; otherwise the index of its first occurrence |
| Text.Split | skills_manager.py:253 | at least one piece, and no piece contains the separator |
| Text.JoinSplit | skills_manager.py:253 | joining the pieces with the separator gives back the string |
| Text.RemoveAll | skills_manager.py:235 | the result is no longer than the input, and equals it when the pattern does not occur |
| Text.RemoveAllDrops | skills_manager.py:235 | an occurrence of the pattern at the front is dropped |
| Text.RemoveAllKeeps | skills_manager.py:235 | a stretch without the pattern's first character is kept unchanged in front of the rest |
| Text.SortedSet | skills_manager.py:53 | `sorted` of a set: strictly increasing in code-point order, holding exactly the set's elements, each once |
| Fs.IsParent | skills_manager.py:206 | `GLOBAL_SKILLS_REPO in target.parents` on components: a proper leading part of the path, where the empty path counts only for relative paths |
| Fs.ParentOfChild | skills_manager.py:206 | a path is a parent of `dir/name` exactly when it is `dir` or a parent of `dir` |
| Bundles.FirstValid | skills_manager.py:255-257 | the result is a segment that is not empty, `..` or `skills`, at a position before which no segment qualifies; none exactly when no segment qualifies |
| Bundles.FirstValidAt | skills_manager.py:255-257 | conversely, a qualifying segment with none qualifying before it is the result |
| Bundles.SkillOfLink | skills_manager.py:253-257 | a skill taken from a link is never empty, `..` or `skills` and has no `/`, and is the first `/`-separated segment of the link that qualifies; there is none exactly when no segment qualifies |
| Bundles.LinkOf | skills_manager.py:247-250 | a link is extracted exactly when the line has both a `(` and a `)` |
| Bundles.LinkOfParts | skills_manager.py:247-250 | the extracted link of a line with no `(` or `)` before its first `(` and no `)` inside the link is exactly the text between the brackets |
| Bundles.HeaderName | skills_manager.py:230-235 | the rule for heading lines: after stripping, the line starts with `### `, and the name is the line without any `###`, stripped |
| Bundles.HeaderNameTrimmed | skills_manager.py:235 | a bundle name never begins or ends with whitespace |
| Bundles.HeaderOfHeading | skills_manager.py:230-235 | a heading `### x`, with `x` non-empty, free of `#` and of surrounding whitespace, and with any whitespace around the line, opens the bundle named exactly `x` |
| Bundles.SkillRef | skills_manager.py:244-257 | a skill named by a list item is always a valid skill name |
| Bundles.Classify | skills_manager.py:230-258 | every skill item carries a valid skill name |
| Bundles.Step | skills_manager.py:233-258 | one line keeps the scanner state consistent: distinct keys, the open bundle among them, valid skills only |
| Bundles.Finish | skills_manager.py:263 | the keys kept are exactly the bundles with a non-empty list, distinct, with their lists unchanged |
| Bundles.Parse | skills_manager.py:217-263 | keys are distinct, no bundle is named by the empty string, every list is non-empty, and every skill is a valid name |
| Bundles.ParseBundles | skills_manager.py:225-263 | the in-place scan over the lines yields exactly `Parse` of the lines |
| Bundles.ScanLine | skills_manager.py:230-260 | one pass of the loop body, on the stripped line, performs exactly the scanner's step for that line's kind |
| Bundles.ItemSkill | skills_manager.py:246-257 | the step-by-step extraction from a stripped list item (find both brackets, slice, take the first valid segment) yields exactly the skill `SkillRef` names |
| Bundles.StepAt | skills_manager.py:233-258 | a line that is not a heading for bundle `k` changes `k`'s list only by appending its skill while `k` is open, and `k` stays open exactly when it was open and the line is no heading |
| Bundles.ClosedSection | skills_manager.py:233-258 | a bundle that is not open keeps its list until a heading with its name |
| Bundles.OpenSection | skills_manager.py:244-258 | the open bundle gains exactly the skills of the lines up to the next heading |
| Bundles.ScanAppend | skills_manager.py:229-260 | scanning two stretches of lines is scanning the first, then the second from where it stopped |
| Bundles.ScanLastHeading | skills_manager.py:233-258 | after the last heading for a bundle, the scan ends with that bundle holding exactly the skills listed under it |
| Bundles.ParseLastHeader | skills_manager.py:233-263 | the last heading for a name decides that bundle: it is present exactly when the skills listed under that heading are non-empty, and its list is exactly those skills; earlier sections of the same name are discarded |
| Bundles.ParseKeysFromHeaders | skills_manager.py:233-239 | every bundle in the result has a non-empty name that some heading line produced |
| Bundles.ParseIgnoresPreamble | skills_manager.py:244 | lines before the first heading contribute nothing |
| Bundles.SkillOfCanonicalLink | skills_manager.py:250-257 | `../skills/X/` and `../skills/X` both name exactly the skill `X` |
| Bundles.SkillRefOfItem | skills_manager.py:244-258 | a list item of the documented form - [`X`](../skills/X/) followed by a description, with any whitespace around the line, names exactly `X` |
| Bundles.Matching | skills_manager.py:285 | exactly the names containing the query, ignoring case, without duplicates |
| Bundles.Resolve | skills_manager.py:285-298 | an ambiguous query has more than one match; a resolved bundle is a manifest name that contains the query |
| Bundles.ResolveUnique | skills_manager.py:285-298 | a query resolves to `b` exactly when `b` is the only bundle whose name contains it, and to nothing exactly when no bundle name contains it |
| Search.GetSkillNames | skills_manager.py:49-53 | strictly sorted, holding exactly the directories (links to directories included) whose names do not start with a dot |
| Search.KeepAlnum | skills_manager.py:120 | the result holds only letters and digits and is no longer than the input |
| Search.Normalize | skills_manager.py:119-120 | the result holds only lower-case letters and digits |
| Search.SkillMatches | skills_manager.py:124-132 | the match rule: every match is also a match of the normal forms, and the empty query matches every skill |
| Search.SearchSkills | skills_manager.py:114-135 | the result is strictly sorted (so free of duplicates) and holds exactly the global skill names that match by the raw rule or the non-empty normalised rule |
| Search.MatchesNormalized | skills_manager.py:124-132 | a raw match is always a normalised match, so a query with a letter or digit matches exactly when its normal form occurs in the name's normal form, and any other query matches only by the raw rule |
| Search.RawImpliesNormalized | skills_manager.py:124-132 | a case-insensitive occurrence of the query is also an occurrence of the normal forms |
| Search.WritingPlansExample | skills_manager.py:119-132 | `writingplans` matches `writing-plans` |
| Search.ComplexSkillExample | skills_manager.py:119-132 | `complex_skill` matches `complex-skill-gamma` |
| Search.NoMatchExample | skills_manager.py:124-132 | `zzz` does not match `skill-alpha` |
| Project.LinkTo | skills_manager.py:185 | the new entry is a working link to the skill's path in the global repository, pointing at a directory exactly when the source is one |
| Project.Install | skills_manager.py:144-189 | four exclusive cases: not in the repository, already present, blocked by a dangling link, installed; only the last changes the listing, by adding exactly that link |
| Project.GuardAsWritten | skills_manager.py:206 | the safety check as written: the global root is among the parents of the target |
| Project.Guard | skills_manager.py:203-206 | the safety check as its comment intends: the target is the global root or lies inside it |
| Project.Shielded | skills_manager.py:203-208 | the entries the safety check protects: a real directory whose path is the global root or has it among its parents |
| Project.Uninstall | skills_manager.py:191-215 | not installed exactly when the name has no entry; a link or file is removed; a real directory is removed unless the safety check protects it; otherwise nothing changes |
| Project.SingleSkillFrame | skills_manager.py:144-215 | install and uninstall leave every other entry as it was |
| Project.InstallIdempotent | skills_manager.py:154-158 | installing twice is installing once, and the second attempt never installs |
| Project.UninstallIdempotent | skills_manager.py:195-208 | uninstalling twice is uninstalling once |
| Project.InstallThenUninstall | skills_manager.py:144-215 | uninstalling a skill just installed into a project that lacked it restores the project |
| Project.GuardOfChild | skills_manager.py:206 | the check as written answers the same for every name, namely whether the global root is the project directory or one of its parents; the corrected check adds exactly the name whose path is the global root |
| Project.AsWrittenMissesRepository | skills_manager.py:206 | when the global repository is the project entry `skills`, the check as written does not stop its removal, and the corrected check does |
| Project.RepositoryNeverRemoved | skills_manager.py:203-211 | a real directory that is the global repository or lies inside it is never removed: `uninstall` stops and `clear` neither counts it as removable nor removes it |
| Project.InstallAll | skills_manager.py:304-309 | one outcome per skill |
| Project.UninstallAll | skills_manager.py:337-340 | one outcome per skill |
| Project.InstallAllState | skills_manager.py:304-309 | afterwards the project holds its old entries unchanged plus a link for each listed skill that the repository has and the project lacked |
| Project.InstallAllOutcomes | skills_manager.py:304-309 | a skill is reported missing exactly when the repository lacks it, and installed exactly at its first occurrence when the project lacked it |
| Project.UninstallAllState | skills_manager.py:337-340 | afterwards the project holds exactly the entries that were not listed or that the safety check protects, unchanged |
| Project.UninstallAllOutcomes | skills_manager.py:337-340 | a safety stop exactly for protected directories; not installed exactly when the name was absent or an earlier occurrence already removed it |
| Project.BundleInstall | skills_manager.py:280-311 | a processed bundle is a bundle of the manifest |
| Project.BundleUninstall | skills_manager.py:313-342 | a processed bundle is a bundle of the manifest |
| Project.BundleInstallEffect | skills_manager.py:280-311 | no bundle exactly when no name contains the query; no or several matches change nothing; one match is the only bundle containing the query, all of whose skills are attempted and counted, and no skill outside it is touched |
| Project.BundleUninstallEffect | skills_manager.py:313-342 | the same for uninstalling a bundle |
| Project.Candidates | skills_manager.py:351-355 | exactly the entries whose names do not start with a dot |
| Project.Removable | skills_manager.py:375-388 | exactly the candidates the safety check does not protect |
| Project.Clear | skills_manager.py:344-392 | the removal goes ahead exactly when there is a candidate and it is forced or confirmed |
| Project.Confirmed | skills_manager.py:361-367 | the removal goes ahead when forced, or when the reply, stripped and lower-cased, is `y` |
| Project.ConfirmedAnswers | skills_manager.py:364-365 | without force, only `y` or `Y`, whitespace aside, confirms |
| Project.ClearEffect | skills_manager.py:344-392 | dot entries always survive; without going ahead nothing changes; going ahead leaves exactly the dot entries and protected directories, unchanged, and reports the number of entries removed |
| Project.ClearLinksEmpties | skills_manager.py:374-392 | a project holding only installed links is emptied by a forced or confirmed clear, and every link is counted |
| Project.Listed | skills_manager.py:87-103 | exactly the non-dot entries that are links (dangling ones included) or directories |
| Project.InstallListed | skills_manager.py:144-189 | installing a visible name adds exactly that name to what the project listing counts |
| Project.ClearListed | skills_manager.py:374-388 | after clearing, the listing counts only the directories the safety check protected |
| Manager.SkillsManager.constructor | skills_manager.py:16-33 | the object holds the given roots, listings and manifest |
| Manager.SkillsManager.InstallSkill | skills_manager.py:144-189 | outcome and new project listing are those of `Project.Install` |
| Manager.SkillsManager.UninstallSkill | skills_manager.py:191-215 | outcome and new project listing are those of `Project.Uninstall` |
| Manager.SkillsManager.InstallBundle | skills_manager.py:280-311 | outcome and new project listing are those of `Project.BundleInstall` |
| Manager.SkillsManager.InstallEach | skills_manager.py:303-309 | the loop's outcomes and listing are those of `Project.InstallAll`, and the counter equals the number of skills |
| Manager.SkillsManager.UninstallBundle | skills_manager.py:313-342 | outcome and new project listing are those of `Project.BundleUninstall` |
| Manager.SkillsManager.UninstallEach | skills_manager.py:336-340 | the loop's outcomes and listing are those of `Project.UninstallAll`, and the counter equals the number of skills |
| Manager.SkillsManager.ClearAllSkills | skills_manager.py:344-372 | outcome and new project listing are those of `Project.Clear` |
| Manager.SkillsManager.RemoveCandidates | skills_manager.py:374-392 | whatever order the candidates are taken in, exactly the removable ones are removed and counted |
| Manager.SkillsManager.ListProject | skills_manager.py:84-105 | the names shown are sorted and are exactly what the listing counts, and the count is their number |

## Left out

- Console output: the coloured print helpers, messages and emoji are left out. Commands return outcome values instead.
- The argument parser and command routing in `main` are left out. They are interface plumbing.
- The platform-dependent choice of the repository, project and manifest paths is left out. The constructor takes these as parameters.
- The PowerShell fallback used on Windows when creating a link fails is left out. It is a foreign process call; the model follows the POSIX path.
- The confirmation prompt is not modelled as I/O: the reply is a parameter. An interrupt at the prompt cancels, like any reply other than `y`.
- Failures of the operating system are left out. These include creating a link for a reason other than a dangling link in the way, and removing a file or a directory tree. The program catches each and reports it, but the failed operation may already have changed the filesystem: `shutil.rmtree` can remove part of a tree before it raises. The model has no such outcome; its removals always complete. (The one caught failure the model does keep is the dangling link that blocks a new link: `LinkFailed`.)
- Search.Normalize: `isalnum` and `lower` are modelled on ASCII only; Unicode letters and digits are not. (For the confirmation prompt this makes no difference, since no other character lowers to `y`.)
- Bundles.Parse: the order of the bundle names is kept but not characterised; no lemma states that names appear in the order of their first heading.
- Skill names are treated as single path components, and every name, including `""` and `.`, as an ordinary entry name. In the program, `pathlib` drops `""` and `.` components, so `GLOBAL/name` and `PROJECT/name` are the two directories themselves: `install` of `""` or `.` reports the skill as already installed when both the global repository and the project directory exist (the repository missing gives "not found"), and `uninstall` of either reaches the `shutil.rmtree` branch on the project skills directory itself, deleting it with every entry, dot entries included, unless the safety check stops it. The model instead treats them as ordinary names. It assumes that no listing holds such a name, since no directory entry can be named `""` or `.`; under that premise it answers `NotInSource` and `NotInstalled` and changes nothing. The listings are arbitrary maps, so the premise is not enforced: a repository listing with such a key would make `Install` answer `Installed`. Names containing `/` or equal to `..`, which would make those paths leave their directories, are not modelled either.
- The global repository is a fixed listing. A project directory that lies inside the global repository shares entries with it; in the model, changes to the project do not show in the repository listing.
- The reverse aliasing is not modelled either: the fixed field `Manager.SkillsManager.repo` does not follow changes to the project. The global repository can itself be the project entry `skills`. With the default paths, run from the home directory, the project directory is `~/.agent/skills` and the global repository `~/.agent/skills/skills`. The repository listing is a fixed field, so a removal of that entry would not show in it. The program as written removes it on `uninstall skills` and on `clear` (see "## Findings"). The model uses the corrected safety check, which keeps that entry, so the repository field stays accurate. The manifest, `~/.agent/skills/docs/BUNDLES.md`, is then the project entry `docs`, an ordinary directory: `uninstall docs` and `clear` remove it in the program and in the model alike, but the manifest lines are a fixed field too, so later bundle commands in the model still read the old manifest.
- Case-insensitive filesystems and path normalisation are left out. Paths are compared component by component, as `pathlib` compares POSIX paths.
- Reading the manifest file and its character decoding are left out. The manifest arrives as its lines, already decoded.
- Manager.SkillsManager.ListProject: the link targets the listing prints (and its fallback for links it cannot read) are not returned; only which names are shown and the count.
- The workflow manifest is not part of this model. No code for it appears in `skills_manager.py`.

## Findings

| source | as written | input that shows it | evidently intended | confidence | as-written member | corrected member |
|---|---|---|---|---|---|---|
| skills_manager.py:206 (the same test at :382) | before removing a real directory, stop only when the global root is among the target's parents | run from the home directory with the default paths: the project directory is `~/.agent/skills`, the global repository `~/.agent/skills/skills`; `uninstall skills` or `clear` removes the whole global repository | stop also when the target is the global root itself, as the comment at :204 says | not executed | Project.AsWrittenMissesRepository | Project.RepositoryNeverRemoved |
