# Qiskit documentation source links, modelled in Dafny

The Sphinx configuration of Qiskit (`docs/conf.py`) is almost all static settings. Its
one piece of behaviour turns a documented Python symbol into a link to its source on
GitHub. This project models that piece and proves what it promises.

- **Branch resolver** (`determine_github_branch`, module `Branch`): picks the branch that
  links point at. It reads the GitHub Actions variables `GITHUB_REF_NAME`,
  `GITHUB_BASE_REF` and `GITHUB_REF_TYPE`, given here as a `map<string, string>`.
  Local builds get `main`. Pull-request builds get their non-empty base ref. Branch
  builds get the branch itself. Tag builds get `stable/<major>.<minor>`, which is the
  match of `re.match(r"(\d+\.\d+)", tag)`. `MatchVersion` is that regex match, and it is
  proved to give the longest prefix of the tag that has the shape of the pattern.
- **Link composer** (`linkcode_resolve`, module `Linkcode`): Python introspection is
  replaced by data. `sys.modules` is a map from module names to object references. A
  heap maps each reference to a `PyObject` that records:
  - what `inspect.isclass`, `ismethod`, `isfunction` and `isbuiltin` report;
  - its attributes;
  - what `inspect.getsourcefile` gives (a path, `None`, or a `TypeError`);
  - what `inspect.getsourcelines` gives (`None` when it raises `OSError`).

  `Linkcode` is the function as a fold (`Walk`) over the parts of the dotted name.
  `LinkcodeResolve` is the same function written with the source's loop, and it is
  proved equal to `Linkcode`. Exceptions that escape are `Failure` values. "No link"
  is `Success(None)`.
- **Text helpers** (module `Text`): ASCII digit runs, Python's `str(int)`, the `in`
  test on strings, and `str.split`. Each is proved against a partner: a decimal
  reader, an existential definition of "occurs in", or `Join`.

The branch is passed to `Linkcode` as a parameter. It stands for `GITHUB_BRANCH`,
which the source computes once when the configuration is loaded
(docs/conf.py:195). If `DetermineBranch` fails there, the build stops before any
link is made.

The model follows the code, including these behaviours:
- The branch resolver can raise a `KeyError`. This happens when `GITHUB_REF_NAME` is
  set, there is no usable base ref, and `GITHUB_REF_TYPE` is missing.
- The linkability check runs on every object met along the dotted name, not only on
  the final one. The module object itself is never checked.
- `inspect.getsourcefile` raises `TypeError` for natively defined classes, and that
  error propagates.

## Model

| member | source | states |
|---|---|---|
| `Text.DigitRun` | docs/conf.py:191 | the greedy `\d*` run: every char before the result is a digit, and the char at the result is not |
| `Text.DigitRunOf` | docs/conf.py:191 | a digit string followed by a non-digit is measured exactly |
| `Text.DigitRunAtLeast` | docs/conf.py:191 | the run covers every all-digit prefix |
| `Text.DigitRunAtMost` | docs/conf.py:191 | the run stops at the first non-digit |
| `Text.NatToDecimal` | docs/conf.py:227 | `str(n)` is non-empty, all digits, and has no leading zero |
| `Text.DecimalRoundTrip` | docs/conf.py:227 | reading the rendered numeral gives back the number |
| `Text.Contains` | docs/conf.py:216 | `sub in s` holds iff `sub` occurs at some position of `s` |
| `Text.Split` | docs/conf.py:207 | `str.split(".")` gives at least one part, and no part holds the separator |
| `Text.JoinSplit` | docs/conf.py:207 | joining the parts with the separator rebuilds the dotted name |
| `Text.SplitJoin` | docs/conf.py:207 | splitting undoes joining separator-free parts, so `Split` is the unique such decomposition |
| `Branch.MatchVersion` | docs/conf.py:191 | `re.match(r"(\d+\.\d+)", tag)`; specified by `MatchIsVersion`, `MatchVersionSound`, `MatchVersionComplete` and `MatchVersionOf` |
| `Branch.DetermineBranch` | docs/conf.py:169-192 | the branch resolver; specified by `LocalBuildIsMain`, `BaseRefWins`, `BranchBuild`, `TagBuild`, `TagWithoutVersionFails`, `BranchKinds` and `BranchFailsIff` |
| `Branch.VersionPrefix` | docs/conf.py:191 | any prefix shaped like `\d+\.\d+` has its dot right after the first digit run, and ends within the second run |
| `Branch.MatchIsVersion` | docs/conf.py:191 | a match is a prefix of the tag and has the shape `\d+\.\d+` |
| `Branch.MatchVersionSound` | docs/conf.py:191 | a match is a prefix of the tag, has the pattern's shape, and no longer prefix has it |
| `Branch.MatchVersionComplete` | docs/conf.py:191 | no match means that no prefix of the tag has the pattern's shape |
| `Branch.MatchVersionOf` | docs/conf.py:189-191 | the match of `d1.d2<rest>` is `d1.d2` when `d1`, `d2` are maximal digit runs |
| `Branch.LocalBuildIsMain` | docs/conf.py:178-179 | without `GITHUB_REF_NAME` the branch is `main`, whatever the other variables hold |
| `Branch.BaseRefWins` | docs/conf.py:182-183 | a non-empty base ref is returned verbatim; an empty one behaves as if unset |
| `Branch.BranchBuild` | docs/conf.py:185-187 | a branch build returns the ref name; a missing ref type at that point raises `KeyError` |
| `Branch.TagBuild` | docs/conf.py:189-192 | a tag build returns `stable/` followed by the maximal digit runs around the first dot |
| `Branch.TagWithoutVersionFails` | docs/conf.py:191 | a tag with no `digits.digits` prefix makes the resolver fail |
| `Branch.BranchKinds` | docs/conf.py:169-192 | every returned branch is `main`, the base ref, the ref name, or `stable/` followed by a version prefix of the ref name |
| `Branch.BranchFailsIff` | docs/conf.py:169-192 | the resolver fails exactly when a non-PR CI build lacks a ref type or has a non-branch ref with no version prefix |
| `Branch.ReleaseTagExamples` | docs/conf.py:189-192 | the tags `1.2.3` and `1.2.3rc1` both give `stable/1.2` |
| `Branch.TagExample` | docs/conf.py:189-192 | a tag `1.2` followed by `.3` or `.3rc1` gives `stable/1.2` |
| `Branch.OtherRefExamples` | docs/conf.py:185-192 | the branch `feature-x` gives itself, and the tag `notaversion` makes the resolver fail |
| `Linkcode.IsValidCodeObject` | docs/conf.py:209-211 | class or method or (function and not builtin), Python's `and`-before-`or` grouping; its use is specified by `WalkReachedIff`, `WalkStopsAtUnlinkable` and `NoLinkExamples` |
| `Linkcode.RelativeTo` | docs/conf.py:218-219 | `relative_to` as a prefix strip of the root; specified by `RelativeToJoin` and `RelativeToOf` |
| `Linkcode.LineSpec` | docs/conf.py:221-227 | the `#L<start>-L<end>` fragment, empty without source lines; specified by `LineSpecCoversSource` |
| `Linkcode.LinkFor` | docs/conf.py:215-229 | from the reached object to the link or error; specified by `EarlyExits`, `LinkAnatomy` and `LinkProduced` |
| `Linkcode.Linkcode` | docs/conf.py:198-229 | `linkcode_resolve` as a fold; specified by `EarlyExits`, `LinkAnatomy`, `LinkProduced`, `UnlinkableGivesNoLink` and `MissingAttributeRaises`, and equal to the loop of `LinkcodeResolve` |
| `Linkcode.Walk` | docs/conf.py:206-213 | a walk that reaches an object ends on a heap object that is linkable, or on the start when there are no parts |
| `Linkcode.Lookup` | docs/conf.py:208 | plain `getattr` along a path stays inside the heap |
| `Linkcode.WalkReachedIff` | docs/conf.py:206-213 | the walk reaches `r` iff attribute access reaches `r` and every object on the way is linkable |
| `Linkcode.WalkStopsAtUnlinkable` | docs/conf.py:209-213 | the walk stops with "no link" at the first object that is not a class, method or non-builtin function |
| `Linkcode.WalkStopsAtMissing` | docs/conf.py:208 | the walk stops at the first missing attribute, naming its owner and the attribute |
| `Linkcode.RelativeToJoin` | docs/conf.py:218-219 | the root joined with the relative path gives back the source path |
| `Linkcode.RelativeToOf` | docs/conf.py:218-219 | a path below the root is taken relative to it exactly |
| `Linkcode.ParseLineSpecOf` | docs/conf.py:227 | `#L<a>-L<b>` reads back as the values of `a` and `b` |
| `Linkcode.LineSpecCoversSource` | docs/conf.py:221-227 | the fragment starts at the first source line, spans as many lines as the source, and its end is not before its start |
| `Linkcode.LinkcodeResolve` | docs/conf.py:198-229 | the loop with its early returns computes exactly the fold-based `Linkcode` |
| `Linkcode.EarlyExits` | docs/conf.py:199-217 | no link for other domains, unloaded modules, unknown sources or sources outside the package; native objects raise |
| `Linkcode.LinkAnatomy` | docs/conf.py:215-229 | a link exists only for an object reached through linkable objects whose file mentions `qiskit` and lies under the root; the URL is the branch tree, the relative path and the line fragment |
| `Linkcode.LinkProduced` | docs/conf.py:215-229 | conversely, an object reached through linkable objects whose file mentions `qiskit` gets the URL of the branch tree, relative path and line fragment, or raises when the file lies outside the root |
| `Linkcode.UnlinkableGivesNoLink` | docs/conf.py:206-213 | the first unlinkable object on the dotted name ends the call with no link |
| `Linkcode.MissingAttributeRaises` | docs/conf.py:207-208 | the first missing attribute, reached before any unlinkable object, raises `AttributeError` rather than giving no link |
| `Linkcode.ClassLinkExample` | docs/conf.py:198-229 | a class of the package gets a link to its file with the range `#L20-L21` for two lines starting at 20 |
| `Linkcode.NoLinkExamples` | docs/conf.py:209-213 | a builtin function gets no link, nor does a symbol of another domain |

## Left out

- Module-level settings (project metadata, extensions, intersphinx, autodoc and autosummary, napoleon, doctest flags, theme; docs/conf.py:27-162): static data with no behaviour.
- The copyright year from `datetime.date.today()` (docs/conf.py:28): it depends on the clock.
- `os.environ`, `sys.modules`, `getattr` and `inspect`: these runtime services are replaced by a map, a heap of objects and their recorded introspection results.
- The cache `GITHUB_BRANCH` (docs/conf.py:195): the branch is a parameter of `Linkcode`.
- `Branch.MatchVersion` uses ASCII digits only. Python's `\d` also matches other Unicode decimal digits.
- `Linkcode.RelativeTo` is a string prefix strip below the root. `PurePath` normalisation (repeated or trailing separators, `.` segments) is not modelled. A path outside the root is the `NotRelative` error.
- `getattr` side effects (properties, `__getattr__` hooks) are not modelled: an attribute is a fixed entry of the object.
- Idempotence holds by construction: every operation here is a function of its inputs.
