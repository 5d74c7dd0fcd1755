# PDDL parsing and detection post-processing, modelled in Dafny

This project models the text-processing core of a planner front end. That
front end reads PDDL (Planning Domain Definition Language) produced by a
language model, and object detections produced by a vision model. The model
covers:

- `extract_pddl`: cuts the `(:init`, `(:goal` or `(define` block out of a
  model's free-form answer. It counts parentheses outside `;` line comments.
- `PDDLDomain`: reads a domain definition.
  - Its predicates section gives the predicate texts, a record per
    predicate (name, arguments, comment) and a name index.
  - Each `(:action` block gives its text, and a record with its name,
    parameter list, precondition fragments and effect fragments.
  - The block search is `get_start_end_idxs` and the fragment scanner is
    `extract_predicates`.
- `PDDLProblem`: reads a problem definition into its object declarations,
  its initial-state facts and its goal conditions.
- `convert_bboxes`, `convert_predicates`, `convert_actions`: render boxes,
  predicates and actions as prompt text.
- `segment.py`: `extract`, which cuts the first balanced `[...]` list out
  of an answer; the loop that builds one box enclosing all detections; and
  the filter that keeps only contours larger than 25 square pixels.

Each Python regular expression is modelled as the scanner it amounts to
under Python's `re` semantics (leftmost match, lazy `.*?`, greedy `\s*`,
`.` stopping at a newline unless DOTALL). `Section` and `SectionLeftmost`
prove that each section scanner returns the leftmost, shortest match of
its pattern.

The two classes are Dafny classes.
- Each Python `parse_*` method is a method that updates its own fields. Its
  contract ties the new fields to a specification function of the input
  text (`PredicatesSpec`, `ActionsSpec`, `ObjectsSpec`, `StateSpec`).
- The lemmas state what these functions promise.
- A Python exception is a `ParseError` value. `NewDomain` and `NewProblem`
  play the constructors: they return either a fully parsed object or the
  first error, never a half-built one.

The model keeps these behaviours of the Python code:
- The `(:action` search does not skip comments.
- After a group closes, `extract_predicates` keeps its start index. A stray
  `)` then emits the previous fragment again, extended
  (`StrayCloseRepeatsFragment`).
- A nested group on one line is one fragment (`NestedGroupOneFragment`).
- Every newline resets the depth and the start index
  (`FragmentsSplitAtNewline`).
- The predicate comment keeps its leading `;`, so the rendered predicate
  text shows ` ;  ; ` (`PredicateCommentsKeepSemicolon`,
  `PredicateTextDoubleSemicolon`).

Other behaviours of the code:
- A duplicate predicate or action name maps to its last occurrence
  (`LastByNameSpec`).
- `extract_predicates` resets the depth and the start index at every
  newline, whether or not the line holds a comment.
- `get_start_end_idxs` and `extract_pddl` reset only the comment flag at a
  newline. Their depth carries over from line to line.
- The objects section ends at the first `)` after `(:objects`, so it is not
  a balanced span.
- The names of an object group stop at the first `-` that is followed by optional
  whitespace and a word, so a hyphenated name is split: the line
  `robot-1 - T` is read as the group (`robot`, `1`) followed by the group
  with no names and the type `T`. `ObjectGroupsLines` therefore assumes
  names without `-`.
- Names written on the `(:objects` line itself keep the marker: the section
  `(:objects a - T)` gives the group (`(:objects a`, `T`) and so the entry
  `(:objects - T` followed by `a - T`.

Files:
- `wrappers.dfy`: `Option` and `Result`.
- `pytext.dfy`: `str.split`, `strip` and `join`.
- `pyfind.dfy`: `str.find` and `str.index`.
- `pddl_scan.dfy`: the comment-aware parenthesis scanners.
- `pddl_patterns.dfy`: the regular expressions.
- `pddl_domain.dfy` and `pddl_problem.dfy`: the two classes.
- `pddl_render.dfy`: the `convert_*` functions.
- `segment.dfy`: the three pieces of `segment.py`.

## Model

| member | source | states |
|---|---|---|
| PddlScan.ExtractPddl | src/vilain_utils.py:256-296 | the result is `PddlSection` of the answer and the part |
| PddlScan.PddlSection | src/vilain_utils.py:262-274 | the result is "" exactly when the part is not init/goal/whole, the marker is absent, or the parentheses never balance |
| PddlScan.ScanBalanced | src/vilain_utils.py:276-294 | the loop finds the first index from the marker where the comment-aware depth drops to zero or below, or reports none |
| PddlScan.FirstNonPositive | src/vilain_utils.py:280-294 | the index found has depth <= 0 and every earlier prefix has depth > 0 |
| PddlScan.PddlSectionShape | src/vilain_utils.py:271-296 | a non-empty result starts at the first occurrence of the marker, is a slice of the input, and is balanced: it closes with `)` at depth 0 and no proper prefix reaches depth 0 |
| PddlScan.PddlSectionIdempotent | src/vilain_utils.py:256-296 | extracting the same part again from an extracted block returns it unchanged |
| PddlScan.SpanRescans | src/vilain_utils.py:280-294 | rescanning a balanced span from its start ends at its last character |
| PddlScan.ParenInCommentInert | src/vilain_utils.py:141-151 | a parenthesis after a `;` on the same line leaves the depth unchanged |
| PddlScan.CommentEditKeepsEnd | src/vilain_utils.py:141-155 | changing any character inside a comment (to anything but a newline) leaves the end of the block unchanged |
| PddlScan.StartEndIdxs | src/vilain_utils.py:121-160 | the block bounds equal `StartEndIdxsSpec`: every occurrence of the marker, each with its balanced end |
| PddlScan.StartEndIdxsSpec | src/vilain_utils.py:121-160 | reference definition of `get_start_end_idxs`: every occurrence of the marker, comments included, each with the index after its balanced end; `NotFound` with no occurrence, `Unbalanced` when one never closes; on success one end per start, each after its start and within the text |
| PddlScan.StartEndIdxsShape | src/vilain_utils.py:121-160 | on success the starts are strictly increasing and are exactly the positions of the marker; each block is a balanced span starting with the marker |
| PddlScan.StartEndIdxsFailure | src/vilain_utils.py:123-157 | the search fails exactly when the marker never occurs, or some occurrence never balances (the Python `index` error or `assert`) |
| PddlScan.UnbalancedBlock | src/vilain_utils.py:153-157 | an occurrence that never balances makes the whole search fail with `Unbalanced` |
| PddlScan.ExtractPredicates | src/vilain_utils.py:162-191 | the fragments collected by the loop equal `PredicateFragments` of the text |
| PddlScan.FragmentsWellFormed | src/vilain_utils.py:169-189 | every fragment starts with `(` and ends with `)` |
| PddlScan.FragmentsOrdered | src/vilain_utils.py:169-191 | the fragments of a prefix are a prefix of the fragments of the whole text |
| PddlScan.FragmentsSplitAtNewline | src/vilain_utils.py:186-189 | the fragments of `a + "\n" + b` are those of `a` followed by those of `b` |
| PddlScan.StrayCloseRepeatsFragment | src/vilain_utils.py:174-181 | because the start index is not reset, `(p) )` yields `(p)` and then `(p) )` |
| PddlScan.NestedGroupOneFragment | src/vilain_utils.py:170-181 | a nested group on one line, `(a (p))`, yields the single fragment `(a (p))` |
| PyFind.StartIdxs | src/vilain_utils.py:123-131 | the start list is every occurrence of the marker, in order; no occurrence means the `index` error |
| PyFind.OccurrencesExact | src/vilain_utils.py:123-131 | the listed starts are exactly the positions where the marker occurs, strictly increasing |
| PyFind.FindSlice | src/vilain_utils.py:126-129 | a search in the slice from `a` gives the search from `a` in the whole text, shifted by `a` |
| PddlDomain.NewDomain | src/vilain_utils.py:70-88 | on success the object holds the text, its flattened form, and the predicates and actions of `DomainSpec`; otherwise the first error |
| PddlDomain.Domain.Init | src/vilain_utils.py:71-85 | the new object holds the text and its flattened form, with empty lists and maps |
| PddlDomain.FlattenIdempotent | src/vilain_utils.py:76-79 | flattening whitespace twice is the same as once |
| PddlDomain.Flatten | src/vilain_utils.py:76-79 | reference definition of `pddl_domain_flat`: newlines become spaces, then each whitespace run becomes one space |
| PddlDomain.CollapseSpaces | src/vilain_utils.py:76-79 | the result has only plain spaces as whitespace and never two in a row; it starts with whitespace exactly when the input does |
| PddlDomain.CollapseSpacesSplit | src/vilain_utils.py:76-79 | collapsing whitespace runs keeps every `split()` token, in order |
| PddlDomain.FlattenSplit | src/vilain_utils.py:76-79 | the flattened domain has the same `split()` tokens as the domain, in order: only whitespace changes |
| PddlDomain.Domain.ParsePredicates | src/vilain_utils.py:90-118 | the predicate texts and records equal `PredicatesSpec`, the name map is the last record per name, and a failure changes nothing |
| PddlDomain.PredicatesSpec | src/vilain_utils.py:90-114 | reference definition of `parse_predicates`: the predicates section, its (group, comment) matches, the rendered predicate texts and one record per match, or the first error |
| PddlPatterns.Section | src/vilain_utils.py:32-33 | reference definition of `pattern.findall(text)[0]` for the objects, init, goal and predicates patterns: from the first marker to the first place where the rest of the pattern matches, or `NotFound` |
| PddlPatterns.PredicateMatches | src/vilain_utils.py:93-97 | the (group, comment) pairs of the predicate pattern, left to right; every group is a one-line `(...)` with no `)` inside |
| PddlPatterns.SectionLeftmost | src/vilain_utils.py:91-96 | a section is found exactly when its pattern matches somewhere; the result is the leftmost, shortest match |
| PddlPatterns.PredicateMatchesLines | src/vilain_utils.py:93-97 | lines of a one-line group plus ` ; comment`, joined by newlines, are matched back as exactly those pairs |
| PddlPatterns.PredicateCommentsKeepSemicolon | src/vilain_utils.py:93 | every captured comment is empty or starts, after spaces, with the `;` itself |
| PddlDomain.PredicateTextDoubleSemicolon | src/vilain_utils.py:99-102 | a comment captured as ` ; text` renders as `pred ;  ; text` |
| PddlDomain.PredicateEntry | src/vilain_utils.py:106-114 | the entry exists exactly when the group's inside has a token; the name and arguments are its tokens and the text and comment are kept |
| PddlDomain.PredicateEntryRoundTrip | src/vilain_utils.py:106-114 | a group written from a name and arguments reads back as that name and those arguments |
| PddlDomain.ParsePredicateEntries | src/vilain_utils.py:105-114 | the loop gives `MapResults` of the pairs: all records in order, or the first error |
| PddlDomain.MapResults | src/vilain_utils.py:105-114 | success exactly when every entry succeeds, with one result per entry; otherwise the error of the first entry that fails |
| PddlDomain.IndexByName | src/vilain_utils.py:116-118 | the map built by the loop is `LastByName` |
| PddlDomain.LastByNameSpec | src/vilain_utils.py:224-226 | the keys are exactly the names present, and each name maps to its last record |
| PddlDomain.Domain.ParseActions | src/vilain_utils.py:120-226 | the action texts and records equal `ActionsSpec`, the name map is the last record per name, and a failure changes nothing |
| PddlDomain.ActionsSpec | src/vilain_utils.py:193-222 | reference definition of `parse_actions`: the `(:action` blocks cut at `get_start_end_idxs`'s bounds and one record per block, or the first error |
| PddlDomain.ActionsSpecShape | src/vilain_utils.py:193-222 | on success there is one record per action text, each text is a balanced `(:action` block, and each record is that text's `ActionEntry` |
| PddlDomain.ParseActionList | src/vilain_utils.py:193-222 | the block cutting and parsing give `ActionsSpec` of the text |
| PddlDomain.CutActions | src/vilain_utils.py:193-198 | the loop's texts equal the reference definition `ActionTexts`: one text per start/end pair, the slice between them |
| PddlDomain.ParseActionEntries | src/vilain_utils.py:206-222 | the loop gives `MapResults` of the texts with `ActionEntry` |
| PddlDomain.ParseAction | src/vilain_utils.py:207-222 | one action text parses to `ActionEntry` of it |
| PddlDomain.ActionEntry | src/vilain_utils.py:206-222 | reference definition of one iteration of the action loop: the parameter group, the fragments between the first `:precondition` and the first `:effect`, the fragments from `:effect` on, and the second token as the name |
| PddlDomain.ActionEntryShape | src/vilain_utils.py:206-222 | parsing succeeds exactly when the parameters match, both clause keys occur and there are two tokens; the name is the second token and every clause fragment is a group |
| PddlDomain.ActionNameAfterMarker | src/vilain_utils.py:218 | for `(:action name ...`, the second token is the name |
| PddlDomain.Index | src/vilain_utils.py:209-213 | `str.index`: succeeds exactly when the key occurs, and returns its first position |
| PddlPatterns.Parameters | src/vilain_utils.py:201-207 | a found parameter list is one parenthesized group on one line |
| PddlPatterns.ParamMatchFrom | src/vilain_utils.py:201-207 | the position found is the first from which the pattern matches |
| PddlProblem.NewProblem | src/vilain_utils.py:10-28 | on success the object holds the text and the objects, initial state and goal of `ProblemSpec`; otherwise the first error, in objects, init, goal order |
| PddlProblem.Problem.Init | src/vilain_utils.py:11-24 | the new object holds the text with every parsed field empty |
| PddlProblem.ProblemSpecSteps | src/vilain_utils.py:26-28 | the three parses run in order, and the first failure decides the result |
| PddlProblem.Problem.ParseObjects | src/vilain_utils.py:31-45 | the section and object entries equal `ObjectsSpec`, and a failure changes nothing |
| PddlProblem.ObjectsSpec | src/vilain_utils.py:31-45 | reference definition of `parse_objects`: the objects section and one `name - type` entry per name of each group, in order, or `NotFound` |
| PddlPatterns.ObjectGroups | src/vilain_utils.py:35-41 | each group has one line of names and a type made of word characters |
| PddlPatterns.ObjectGroupsLines | src/vilain_utils.py:35-41 | declaration lines `names - type`, joined by newlines, are read back as exactly their (names, type) pairs, in order |
| PddlProblem.FlattenObjects | src/vilain_utils.py:41-45 | the loop's entries equal `ObjectEntries` of the groups |
| PddlProblem.GroupEntriesShape | src/vilain_utils.py:44-45 | each name of a group gives the entry `name - type`, which splits back into the name, `-` and the type |
| PddlProblem.ObjectEntriesAppend | src/vilain_utils.py:41-45 | the entries of two group lists are the entries of each, concatenated in order |
| PddlProblem.CleanTypeWord | src/vilain_utils.py:42 | a type of word characters is unchanged by the strip and `;` cut |
| PddlProblem.Problem.ParseInitialState | src/vilain_utils.py:48-56 | the section and facts equal `StateSpec` for `:init`, and a failure changes nothing |
| PddlProblem.Problem.ParseGoal | src/vilain_utils.py:59-67 | the section and conditions equal `StateSpec` for `:goal`, and a failure changes nothing |
| PddlProblem.StateSpec | src/vilain_utils.py:48-67 | reference definition of `parse_initial_state` and `parse_goal`: the init or goal section of the comment-free text and its one-line groups, or `NotFound` |
| PddlPatterns.ParenGroups | src/vilain_utils.py:55-56 | the matches of the group pattern, left to right; every one is a one-line `(...)` with no `)` inside |
| PddlPatterns.StripComments | src/vilain_utils.py:49-50 | the result has no `;` and is no longer than the input |
| PddlPatterns.StripCommentsIdempotent | src/vilain_utils.py:49-50 | removing comments twice is the same as once |
| PddlPatterns.StripCommentsLine | src/vilain_utils.py:49-50 | a comment is removed up to, and not including, its newline |
| PddlProblem.StateSpecNoComments | src/vilain_utils.py:48-67 | neither the section nor any fact contains a `;`, and every fact is a one-line group |
| PddlPatterns.ParenGroupsJoin | src/vilain_utils.py:55-67 | one-line groups joined by spaces are found again as exactly those groups |
| PddlRender.ConvertBboxesRoundTrip | src/vilain_utils.py:229-238 | the rendered lines read back as the (name, coordinates) pairs, in order |
| PddlRender.ConvertBboxes | src/vilain_utils.py:229-238 | reference definition of `convert_bboxes`: one `- name: coordinates` line per box, joined by newlines |
| PddlRender.ReadBulletLine | src/vilain_utils.py:236 | a line read back into a pair renders as that same line |
| PddlRender.ConvertPredicatesRoundTrip | src/vilain_utils.py:241-247 | the rendered lines read back as the (predicate, comment) pairs, in order |
| PddlRender.ConvertPredicates | src/vilain_utils.py:241-247 | reference definition of `convert_predicates`: one `- predicate: comment` line per predicate record, joined by newlines |
| PddlRender.ConvertActionsContains | src/vilain_utils.py:250-253 | every action text appears whole in the output at its offset after the earlier ones and their newlines |
| PddlRender.ConvertActions | src/vilain_utils.py:250-253 | reference definition of `convert_actions`: the action texts joined by newlines |
| Segment.Extract | src/segment.py:14-32 | the result is `ExtractSpec` of the answer |
| Segment.ExtractSpec | src/segment.py:14-32 | reference definition of `extract`: the slice from the first `[` to the index where the bracket depth first drops to zero or below, `NoOpenBracket` without a `[`, `Unbalanced` when the depth never drops |
| Segment.ScanBrackets | src/segment.py:20-30 | the loop finds the first index where the bracket depth from the first `[` drops to zero or below |
| Segment.ExtractNoBracket | src/segment.py:16 | extraction fails for the missing bracket exactly when the answer has no `[` |
| Segment.ExtractUnbalanced | src/segment.py:20-32 | extraction fails as unbalanced exactly when the depth from the first `[` stays positive to the end |
| Segment.ExtractShape | src/segment.py:14-32 | the result starts at the first `[`, is a slice of the answer, closes with `]` at depth 0, and no proper prefix reaches depth 0 |
| Segment.ExtractIdempotent | src/segment.py:14-32 | extracting from an extracted list returns it unchanged |
| Segment.ExtractOnlyBrackets | src/segment.py:14-32 | two answers with `[` and `]` at the same places give the same span, whatever else they contain |
| Segment.MergeBoxes | src/segment.py:174-186 | the loop's four values are the union box `UnionBox` of the detections |
| Segment.UnionBox | src/segment.py:174-186 | reference definition of the union loop: start at (`1e13`, `1e13`, `-1`, `-1`) and take the min of the left and top sides and the max of the right and bottom sides of each box in turn |
| Segment.UnionBoxEncloses | src/segment.py:174-186 | the union box encloses every box, and each side is either its start value or some box's side |
| Segment.UnionBoxEmpty | src/segment.py:174-177 | with no detections the box keeps its start values (`1e13`, `1e13`, `-1`, `-1`) |
| Segment.UnionBoxIgnoresLabels | src/segment.py:179-184 | only the boxes matter, not the labels |
| Segment.RemoveSmallBoxes | src/segment.py:225-229 | the kept boxes are `FilterSmall` of the contour rectangles |
| Segment.FilterSmall | src/segment.py:225-229 | reference definition of the filter: for each rectangle in order, its corner box when `w * h > 25` |
| Segment.FilterSmallExactly | src/segment.py:225-229 | exactly the rectangles with area over 25 are kept, as corner boxes; every kept box has area over 25 |
| Segment.FilterSmallAppend | src/segment.py:225-229 | filtering distributes over concatenation, so order is kept |

## Left out

- Python exceptions (`IndexError` from `findall(...)[0]`, `ValueError` from `str.index`, the `AssertionError` in `get_start_end_idxs`, `TypeError` from `end + 1` in `extract`) are modelled as `ParseError` and `ExtractError` values.
- PddlDomain.Domain.ParsePredicates, PddlDomain.Domain.ParseActions, PddlProblem.Problem.ParseObjects, PddlProblem.Problem.ParseInitialState, PddlProblem.Problem.ParseGoal: on failure the fields are left unchanged. In Python the exception can strike after an earlier assignment, but the constructor then raises, so no caller sees that partial state.
- The `None` that the `PDDLDomain` and `PDDLProblem` constructors store in their text and list fields before parsing is modelled as an empty list or an empty string. The maps `name2predicate` and `name2action`, which Python first creates in `parse_predicates` and `parse_actions`, start as empty maps in `PddlDomain.Domain.Init`.
- PddlPatterns.ObjectGroupsLines: the read-back holds for names without `-` or whitespace and a word type, one declaration per line, each line starting with a name.
- `\s` and `\w` are their ASCII meanings. Unicode whitespace and word characters are not modelled.
- PddlRender.ConvertBboxesRoundTrip: the coordinates are the text that Python prints for the list. Float formatting is not modelled.
- PddlRender.ConvertBboxesRoundTrip, PddlRender.ConvertPredicatesRoundTrip: the round trips hold only for keys without `:` or newline and values without newline. The Python renderer has no inverse.
- PddlPatterns.PredicateMatchesLines, PddlPatterns.ParenGroupsJoin: the round trips hold for groups with no `)` or newline between their outer parentheses, the inputs on which the lazy patterns are exact.
- PyFind.StartIdxs: searches from an offset rather than slicing. `PyFind.FindSlice` proves that the two agree.
- The `segment.py` coordinates are integers, and the `1e13` start value is the integer `Segment.Far`. The numpy arrays are sequences.
- In `segment.py`, the cucumber selection before the union loop, the SAM2/OpenCV calls that produce the contours, and the image, plotting and model-API code are not part of this model.
- The prompts, the OpenAI client, the `vilain.py` orchestration and the scripts are outside the parsing core and are not modelled.
