# policymatch mask-compliance evaluator, modelled in Dafny

policymatch checks Hashcat masks against a password policy. A mask is a string of literal
characters and two-character placeholders: the marker `?` followed by a selector such as `l`
(lower case), `u`, `d`, `s`, `a` or `?`. The `PolicyMatcher` record holds ten integer bounds,
a minimum and a maximum for five dimensions (lower, upper, digit, special, length). For one
mask it computes five counts:

- the length count: the number of characters that are not `?`;
- four class counts: each is the number of matches a regular-expression `findall` reports
  for its class's two-character pattern. The search is leftmost and its matches never overlap.

It then checks each count against its inclusive bounds, where a negative maximum means
"no upper bound". `get_compliant` keeps the compliant masks of a sequence, in order. Before
the check, `merge_lines` combines the line sets of several input files by union,
intersection or symmetric difference, and sorts the result when asked.

Files and modules:

- `mask_counts.dfy`, module `MaskCounts`: the counters. The regular expressions become an
  explicit scan, `MatchStarts`. Unicode's `\p{Ll}`, `\p{Lu}` and `\p{N}` become a
  `Categories` parameter.
- `policy.dfy`, module `Policy`: the bounds record and `_is_compliant`.
- `compliance_filter.dfy`, module `ComplianceFilter`: `get_compliant`, a loop proved equal to
  a `Filter` function.
- `string_order.dfy`, module `StringOrder`: the ordering on `str` that `sorted` uses.
- `line_merge.dfy`, module `LineMerge`: `merge_lines` and the choice of merge function.

Behaviour of the code that the model reproduces and the lemmas pin down:

- `?a` is counted in no class: no alternative of the four patterns accepts the selector `a`,
  as the FIXME at `policy_matcher.py:24` notes (`AnyPlaceholderUncounted`).
- A literal character is counted only as the second character of a matched pair. The
  pattern `[^?]\p{Ll}` consumes the character before the letter. So `a` has lower count 0,
  `ab` has 1 and `abcd` has 2 (`LiteralExamples`).
- `Password1!` has lower count 4 and upper count 0, so it fails a policy asking for one
  upper-case character (`PasswordCounts`, `PasswordScenario`).
- The length count of `?u?l?l?l?d` is 5 and that of `??` is 0, because only the `?`
  characters are removed (`PlaceholderMaskCounts`, `LengthExamples`).
- Every negative maximum means "unbounded", not only -1: each test at
  `policy_matcher.py:43-66` branches on `max < 0` (`DimensionCases`).
- The special set `[!"#$%&'()*+,-./:;<=>@[\]^_`{|}~]` is read with the `regex` module's
  default (version 0) syntax. There `[` inside a set is a literal, and `,-.` is the range
  from `,` to `.`. The set is all 32 ASCII punctuation characters except `?` and `\`.
- `set.symmetric_difference` takes exactly one other set, so that merge needs exactly two
  line sets. With no line sets at all, every merge function raises `TypeError`.

## Model

| member | source | states |
|---|---|---|
| MaskCounts.MatchStarts | src/policymatch/policy_matcher.py:25-28 | the scan reports a leftmost, non-overlapping match list: every entry matches, entries are at least two apart, every position it tries without reporting is no match; at most half the remaining length |
| MaskCounts.MatchAt | src/policymatch/policy_matcher.py:25-28 | a match occupies two characters of the mask; when `?` is in no category, its second character is `?` only for the special placeholder `??` |
| MaskCounts.LeftmostMatchesUnique | src/policymatch/policy_matcher.py:25-28 | any list with those three properties is the scan's result, so the count is determined by them |
| MaskCounts.ClassCount | src/policymatch/policy_matcher.py:38-41 | each class count is at most `|mask| / 2` |
| MaskCounts.Strip | src/policymatch/policy_matcher.py:37 | `mask.replace("?", "")` holds no marker and is no longer than the mask |
| MaskCounts.StripMultiset | src/policymatch/policy_matcher.py:37 | stripping removes every marker and keeps every other character as often as it occurs |
| MaskCounts.StripWithoutMarkers | src/policymatch/policy_matcher.py:37 | a mask without markers is unchanged by stripping |
| MaskCounts.LengthCount | src/policymatch/policy_matcher.py:37 | the length count is at most the mask's length |
| MaskCounts.LengthCountComplement | src/policymatch/policy_matcher.py:37 | length count plus the number of `?` characters equals the mask's length |
| MaskCounts.LengthWithoutMarkers | src/policymatch/policy_matcher.py:37 | a mask without `?` has length count `|mask|` |
| MaskCounts.CountsOf | src/policymatch/policy_matcher.py:37-41 | the four class counts are each at most half the mask's length |
| MaskCounts.EmptyMask | src/policymatch/policy_matcher.py:37-41 | the empty mask has all five counts 0 |
| MaskCounts.LiteralRun | src/policymatch/policy_matcher.py:25-28 | a run of non-marker literals of one class counts `|run| / 2` (every second character) |
| MaskCounts.PlaceholderCounts | src/policymatch/policy_matcher.py:24-28 | in a mask of placeholders only, a class counts the selectors its pattern accepts, and the length count is the number of selectors other than `?` |
| MaskCounts.AnyPlaceholderUncounted | src/policymatch/policy_matcher.py:24-28 | a mask of `n` `?a` placeholders has all class counts 0 and length count `n` |
| MaskCounts.LiteralExamples | src/policymatch/policy_matcher.py:25 | lower count of `a` is 0, of `ab` is 1, of `abcd` is 2 |
| MaskCounts.EscapedMarkerExample | src/policymatch/policy_matcher.py:28 | `??` has special count 1, all other counts 0, length count 0 |
| MaskCounts.SpecialPlaceholderExample | src/policymatch/policy_matcher.py:28 | `?s` has special count 1 and length count 1, other classes 0 |
| MaskCounts.LengthExamples | src/policymatch/policy_matcher.py:37 | `?l` and `?a` have length count 1, `??` has 0, `ab?` has 2 |
| MaskCounts.SpecialLiteralGaps | src/policymatch/policy_matcher.py:28 | neither `?` nor `\` is in the literal special set |
| MaskCounts.AnyExample | src/policymatch/policy_matcher.py:24 | `?a` has all class counts 0 and length count 1 |
| MaskCounts.PasswordCounts | src/policymatch/policy_matcher.py:37-41 | `Password1!` has counts lower 4, upper 0, digit 1, special 1, length 10 |
| MaskCounts.PlaceholderMaskCounts | src/policymatch/policy_matcher.py:37-41 | `?u?l?l?l?d` has counts lower 3, upper 1, digit 1, special 0, length 5 |
| Policy.PolicyMatcher | src/policymatch/policy_matcher.py:13-22 | the ten integer bounds, in the record's field order |
| Policy.DefaultPolicy | src/policymatch/policy_matcher.py:13-22 | the record's defaults: every minimum 0, every maximum negative (unbounded) |
| Policy.CommandLineDefaults | src/policymatch/main.py:29-48 | the command line's defaults: minimum length 8, all other bounds as the record's |
| Policy.DimensionPasses | src/policymatch/policy_matcher.py:43-66 | a passing count reaches the minimum; bounds with `0 <= max < min` pass no count |
| Policy.IsCompliant | src/policymatch/policy_matcher.py:30-68 | a compliant mask reaches all five minima |
| Policy.CompliantIffAllDimensions | src/policymatch/policy_matcher.py:43-68 | a mask is compliant iff every one of the five dimensions passes its bounds |
| Policy.DimensionCases | src/policymatch/policy_matcher.py:43-66 | a negative max passes iff `min <= count`; a non-negative max passes iff `min <= count <= max`; `0 <= max < min` always fails |
| Policy.InconsistentBoundsReject | src/policymatch/policy_matcher.py:43-68 | a dimension with `0 <= max < min` makes every mask non-compliant |
| Policy.WideningKeepsCompliance | src/policymatch/policy_matcher.py:43-68 | lowering minima, raising non-negative maxima or making maxima negative keeps a compliant mask compliant |
| Policy.DefaultPolicyAcceptsAll | src/policymatch/policy_matcher.py:13-22 | with the record's default bounds every mask is compliant |
| Policy.CommandLineDefaultsNeedLength | src/policymatch/main.py:29-48 | with the command line's defaults a mask is compliant iff its length count is at least 8 |
| Policy.PlaceholderMaskScenario | src/policymatch/policy_matcher.py:43-68 | `?u?l?l?l?d` fails the command line's minimum length 8 and passes the record's defaults |
| Policy.PasswordScenario | src/policymatch/policy_matcher.py:53-56 | `Password1!` fails a policy asking for one upper-case character and passes once that minimum is 0 |
| ComplianceFilter.Filter | src/policymatch/policy_matcher.py:77-79 | every output element passes the test, and the output is no longer than the input |
| ComplianceFilter.FilterAppend | src/policymatch/policy_matcher.py:77-79 | filtering a concatenation is the concatenation of the filtered parts (input order kept) |
| ComplianceFilter.FilterMultiplicity | src/policymatch/policy_matcher.py:77-79 | each accepted element occurs in the output as often as in the input, a rejected one never |
| ComplianceFilter.FilterMembership | src/policymatch/policy_matcher.py:77-79 | an element is output iff it is in the input and accepted |
| ComplianceFilter.FilterIsSubsequence | src/policymatch/policy_matcher.py:77-79 | the output is a subsequence of the input |
| ComplianceFilter.CompliantOutput | src/policymatch/policy_matcher.py:70-79 | `get_compliant` outputs a mask iff it is an input mask and compliant |
| ComplianceFilter.GetCompliant | src/policymatch/policy_matcher.py:70-79 | the loop's output is the filter of the input by `_is_compliant` |
| StringOrder.Less | src/policymatch/utilities.py:35 | a proper prefix sorts before the longer string; no string sorts before one of its own prefixes |
| StringOrder.LessIrreflexive | src/policymatch/utilities.py:35 | no string sorts before itself |
| StringOrder.LessAsymmetric | src/policymatch/utilities.py:35 | two strings are never each before the other |
| StringOrder.LessTransitive | src/policymatch/utilities.py:35 | the string order is transitive |
| StringOrder.LessTrichotomy | src/policymatch/utilities.py:35 | two strings are equal or ordered one way or the other |
| LineMerge.ChooseCombinator | src/policymatch/utilities.py:84-91 | union when `--union` is set or neither other flag is; intersection iff `--intersect` without `--union`; symmetric difference iff only `--difference` |
| LineMerge.UnionAll | src/policymatch/utilities.py:32 | a line is in the union iff it is in some input set |
| LineMerge.IntersectAll | src/policymatch/utilities.py:32 | a line is in the intersection iff it is in every input set |
| LineMerge.Merge | src/policymatch/utilities.py:32 | `TypeError` iff there are no sets, or symmetric difference gets other than two; otherwise union, intersection and symmetric difference hold exactly the lines in some, in every, in exactly one of the sets |
| LineMerge.Minimum | src/policymatch/utilities.py:35 | the least line of a non-empty set is in it and before every other line |
| LineMerge.SortedLines | src/policymatch/utilities.py:35 | `sorted` of a set is strictly ascending and holds exactly the set's lines |
| LineMerge.SomeOrder | src/policymatch/utilities.py:37 | `tuple` of a set holds exactly its lines, each once |
| LineMerge.AscendingHasNoDuplicates | src/policymatch/utilities.py:35 | a strictly ascending sequence has no duplicates |
| LineMerge.AscendingUnique | src/policymatch/utilities.py:35 | two strictly ascending sequences with the same lines are equal |
| LineMerge.MergeLines | src/policymatch/utilities.py:23-37 | fails iff the merge fails; otherwise no duplicates, exactly the merged lines, in ascending order when `sort` is set |
| LineMerge.SortedOutputIsDetermined | src/policymatch/utilities.py:34-35 | with `sort`, the output is the only ascending listing of the merged set |
| LineMerge.TwoFileScenario | src/policymatch/utilities.py:84-89 | `{?l?l, ?d?d}` and `{?d?d, ?u?u}` give union `{?l?l, ?d?d, ?u?u}`, intersection `{?d?d}`, symmetric difference `{?l?l, ?u?u}` |

## Left out

- `get_lines` and `export_lines` (`utilities.py`): file reading, `line.strip()`, file writing and `print` are I/O.
- Argument parsing and wiring in `main.py` and `utilities.main`: command-line plumbing. Only the flag-to-merge-function chain (`ChooseCombinator`) and the default bounds (`CommandLineDefaults`, minimum length 8, against the record's 0) are modelled.
- `setup.py`: packaging.
- The `regex` library and the Unicode category tables: `Categories` is a parameter. `AsciiFaithful` states what the tables say about ASCII, and only the concrete-mask examples need it. The lemmas over all masks of placeholders need only `MarkerUncategorised`: `?` is in none of the three categories.
- The `attr` `instance_of(int)` validators: Dafny's `int` already rules out other types.
- Generator laziness: `get_compliant` returns a whole sequence.
- `merge_lines`'s default arguments (`merge_fun=set.union`, `sort=True`): callers of `MergeLines` pass both. The unpacked generator of line sets is a sequence.
- LineMerge.SomeOrder: promises nothing about order, because CPython's set iteration order is not modelled.
- `TypeError` messages: only which case raises is modelled.
