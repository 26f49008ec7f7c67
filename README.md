# $util helpers of vswift-base, modelled in Dafny

This project models the `$util` object in `es/util.ts`. It covers the seven
helpers that compute something:

- `desen` masks the middle of a string with stars.
- `getLabelByValue` looks up the label of a select option by its value.
- `mergeParams` merges search parameters into a request's parameters in place.
- `transChar` builds a pipeline that escapes `<`, `≤`, `>` and `≥` as HTML
  entities, after any extra functions.
- `capitalize` lower-cases a string and upper-cases each word's first letter.
- `findTreeObj` builds a finder that remembers the node with a given id in a
  forest.
- `findTreeIds` builds a finder that rewrites each visited node's id into the
  comma-joined chain of its ancestors' ids. Each chain that contains the target
  is recorded over the one before it. The finder returns the last recorded
  chain split and reversed.

Each file is one module:

- `js.dfy` (`Js`) holds the JavaScript values and their truthiness. It also
  models the built-ins the helpers call: `substring`, `includes`, `split`,
  `join` and `reverse`.
- `tree.dfy` (`Tree`) holds the tree nodes both finders search.
- Every other file holds one helper.

The form follows the source:

- Loops become methods with invariants, proved against a specification
  function:
  - `Desen.Desen` and the three passes of `MergeParams`;
  - the loops of the two finders.
- `mergeParams` updates its target object in place. That object is the class
  `MergeParams.Params`.
- Each finder closure keeps a captured variable that its calls update: `findObj`
  in `findTreeObj` and `findIds` in `findTreeIds`. Each becomes a class field
  that the `Finder` method modifies.
- The remaining helpers are pure, so they are functions with lemmas.

The model follows the code in four places where a reader might expect
something else:

- One might expect a negative length to mask nothing. Instead it widens the
  mask, because `desen`'s star count is the string length minus both lengths.
  Lengths that add up to more than the string do mask nothing.
- One might expect `findTreeObj` to return the first match in pre-order. But its
  `break` leaves only the sibling loop it is in, and an outer loop goes on after
  the inner one returns. So the finder yields the **last** matching node it
  visits.
- `findTreeIds` has the same `break`, so a later sibling's match overwrites a
  chain recorded deeper in an earlier sibling. The finder returns the path of
  the last match it visits, not of the first in pre-order (see
  `FindTreeIds.LastChainWinsExample`).
- One might expect a finder from `findTreeIds` to give the same answer each time
  it searches a tree. But it rewrites the ids of the tree it is given, so a
  second search over the same tree appends the parent chain again. The parent
  id then appears twice in the result (see `FindTreeIds.DebugExample`).

## Model

| member | source | states |
|---|---|---|
| Js.Substring | es/util.ts:74 | `substring` returns the slice of the string between the smaller and the larger clamped index |
| Js.IncludesAt | es/util.ts:220 | `includes` holds exactly when the target is the slice of the string at some index |
| Js.SubstringSymmetric | es/util.ts:74 | swapping the two indices gives the same substring, whose length is the distance between the clamped indices |
| Js.Clamp | es/util.ts:74 | an index argument of `substring` ends up within 0..length, equal to the index when already inside, 0 below, the length above |
| Js.IncludesAcrossSeparator | es/util.ts:220 | a comma-free target occurs in `a,b` exactly when it occurs in `a` or in `b` |
| Js.JoinSplit | es/util.ts:228 | joining the pieces of `split(',')` gives back the split string |
| Js.SplitJoin | es/util.ts:228 | splitting a join of comma-free pieces gives back the pieces |
| Js.Split | es/util.ts:228 | `split` always yields at least one piece, and no piece contains the separator |
| Js.Reversed | es/util.ts:229 | `reverse` keeps the length and puts element i at position length-1-i |
| Js.ReversedReversed | es/util.ts:229 | reversing twice restores the array |
| Desen.Stars | es/util.ts:68-73 | the star string has max(0, n) characters, all `*` |
| Desen.Desen | es/util.ts:66-75 | the loop counts the stars down and returns prefix, stars and suffix: the result is `Masked(s, startLen, endLen)` |
| Desen.MaskedInRange | es/util.ts:66-75 | for in-range lengths the result has the input's length, keeps the first startLen and last endLen characters, and stars everything between |
| Desen.MaskedShape | es/util.ts:66-75 | for any lengths the result is the clamped prefix, exactly max(0, length-startLen-endLen) stars and the clamped suffix |
| Desen.MaskedPhoneNumber | es/util.ts:66-75 | `13812345678` masked with 3 and 4 is `138****5678` |
| SelectOptions.FindIndex | es/util.ts:83 | `items.find` with `===`: the index of the first option whose value equals the given one, and none exactly when no option has it |
| SelectOptions.GetLabelByValue | es/util.ts:82-85 | the result is never empty; it is the first matching option's label when that label is non-empty, `--` otherwise or when nothing matches |
| SelectOptions.LabelComesFromOptions | es/util.ts:82-85 | any label returned other than `--` is the label of an option carrying the value |
| SelectOptions.StrictEquality | es/util.ts:83 | the number 1 does not match an option whose value is the string "1"; the string does |
| MergeParams.Params.constructor | es/util.ts:94 | a parameter object holds exactly the given entries |
| MergeParams.RetainKeys | es/util.ts:95 | the retained keys are the options' list when given, else `current` and `size` |
| MergeParams.DeleteKeys | es/util.ts:96 | the keys to delete are the options' list when given, else none |
| MergeParams.CopySource | es/util.ts:97-99 | after the first pass the keys are the target's and the source's; a source key holds the source value, any other key its target value |
| MergeParams.DropUnretained | es/util.ts:100-104 | after the second pass a key is present iff it was in the target and is retained or has a truthy source value; retained keys keep the target value, others hold their truthy source value |
| MergeParams.DeleteListed | es/util.ts:105-109 | after the third pass a key is present iff it was present and is not listed, with its value unchanged |
| MergeParams.CopySourceInto | es/util.ts:97-99 | after the first loop the target is the old target overridden by every source entry |
| MergeParams.DropUnretainedFrom | es/util.ts:100-104 | after the second loop an unretained key holds its truthy source value or is gone; retained keys are untouched |
| MergeParams.DeleteListedFrom | es/util.ts:105-109 | after the third step every listed key is gone and nothing else changed |
| MergeParams.MergeParams | es/util.ts:94-111 | the target is updated in place to the three passes applied in order, and the same object is returned |
| MergeParams.MergedEntries | es/util.ts:94-111 | a key survives the merge iff it is not deleted and is either retained (and present in the target or the source) or given a truthy source value; it then holds the source value if the source has the key, else its old value |
| MergeParams.FalsySourceDeletes | es/util.ts:101-103 | an unretained key whose source value is falsy is removed rather than copied |
| MergeParams.MergeExample | es/util.ts:94-111 | merging `{a: 2}` into `{a: 1, current: 1}` while retaining `current` gives `{a: 2, current: 1}` |
| TransChar.CharKey | es/util.ts:123-128 | the key of the table that names a character, and none for a character no key names |
| TransChar.ReplaceAll | es/util.ts:119-122 | a global replace leaves no occurrence of the character when the replacement lacks it, and changes nothing when the character is absent |
| TransChar.Replacers | es/util.ts:130-133 | `targets.map` yields one replacer per target |
| TransChar.FlowRightAppend | es/util.ts:134 | `flowRight` over a concatenation applies the right-hand functions first |
| TransChar.ReplaceAfterEscape | es/util.ts:119-122 | replacing one more key's character after escaping a set of keys escapes the set with that key added; existing entities are not disturbed |
| TransChar.ReplacersEscape | es/util.ts:130-134 | the composed replacers escape exactly the characters of the target keys, in any order and with repeats |
| TransChar.TransCharEscapes | es/util.ts:118-137 | the returned function runs the extras right to left, then escapes the targets' characters as entities |
| TransChar.EscapeRemovesSelected | es/util.ts:118-137 | after escaping, no character of a selected key remains |
| TransChar.EscapeKeepsUnselected | es/util.ts:118-137 | the characters of unselected keys are kept, with the same number of occurrences |
| TransChar.EscapeNothing | es/util.ts:130-134 | escaping no keys leaves the string unchanged |
| TransChar.TransCharExample | es/util.ts:118-137 | `transChar(['gt', 'le'])` maps `a≤b>c` to `a&le;b&gt;c` |
| Capitalize.ToLower | es/util.ts:145 | `toLowerCase` on a character leaves no upper-case ASCII letter and changes nothing else |
| Capitalize.ToUpper | es/util.ts:145 | `toUpperCase` on a letter a-z gives the upper-case letter that lowers back to it, and changes nothing else |
| Capitalize.LowerCase | es/util.ts:145 | `toLowerCase` keeps the length and lowers each character |
| Capitalize.UpperWordStartsAt | es/util.ts:145 | the global replace upper-cases exactly the letters a-z at the start or right after a space, and copies every other character |
| Capitalize.CapitalizeAt | es/util.ts:144-146 | capitalize keeps the length and gives each position its lower-cased character, upper-cased when it is a letter a-z starting a word |
| Capitalize.CapitalizeIdempotent | es/util.ts:144-146 | capitalizing twice is capitalizing once |
| Capitalize.CapitalizeExample | es/util.ts:144-146 | `aB cD` becomes `Ab Cd` |
| FindTreeObj.ObjFinder.constructor | es/util.ts:171-174 | a fresh finder has the target id and no node found yet |
| FindTreeObj.ObjFinder.Finder | es/util.ts:175-186 | the loop and its recursion leave the captured node as the search specification gives it, and return it |
| FindTreeObj.ObjSearchNoMatch | es/util.ts:176-185 | when no node has the target id, the captured node is left as it was |
| FindTreeObj.ObjSearchUniqueMatch | es/util.ts:176-185 | when exactly one node has the target id, the finder returns that node |
| FindTreeObj.ObjSearchFindsMatch | es/util.ts:176-185 | the result is the earlier captured node or a node of the forest with the target id |
| FindTreeObj.ObjSearchIsLastVisitedMatch | es/util.ts:176-184 | the result is the last matching node in the order the loops visit nodes, because the break leaves only the innermost loop |
| FindTreeObj.LastMatchWinsExample | es/util.ts:176-184 | in `[a{children: [x]}, x']` the finder returns `x'`, not `x` |
| FindTreeIds.Chain | es/util.ts:219 | a node's new id starts with its old id |
| FindTreeIds.IdsSearch | es/util.ts:218-227 | one search keeps the number of nodes in each list |
| FindTreeIds.IdsResult | es/util.ts:228-229 | no recorded chain gives `[]`; a recorded chain gives at least one comma-free piece, and reversed and re-joined the pieces are the chain (with `Js.SplitJoin` this fixes the result) |
| FindTreeIds.IdsFinder.constructor | es/util.ts:213-216 | a fresh finder has the target id and no chain recorded |
| FindTreeIds.IdsFinder.Search | es/util.ts:218-227 | the loop, with its recursion and its break, leaves the rewritten forest and the recorded chain as the search specification gives them |
| FindTreeIds.IdsFinder.Finder | es/util.ts:217-230 | the finder searches, then returns the recorded chain split on commas and reversed |
| FindTreeIds.IdsSearchRecordsMatch | es/util.ts:220-222 | the recorded chain changes only to a chain that contains the target |
| FindTreeIds.IdsSearchRewrites | es/util.ts:218-227 | the search keeps the shape and every other field; each node is left untouched or gets exactly the id `own,parentChain` (just `own` below an empty parent chain), with its children rewritten below that new id |
| FindTreeIds.IdsSearchStopsAtHit | es/util.ts:218-227 | in one sibling list every node before the first whose chain contains the target gets its chain; that node gets its chain, keeps its children and its chain is recorded; the later siblings come back unchanged |
| FindTreeIds.IdsSearchIsLastVisitedMatch | es/util.ts:218-227 | the recorded chain is the last chain containing the target in the order the loops visit nodes, or the earlier one when there is none |
| FindTreeIds.LastChainWinsExample | es/util.ts:218-229 | in `[a{children: [x]}, x']` with target `x` the finder records `x` and returns `['x']`, not the pre-order path `['a', 'x']` |
| FindTreeIds.PathTo | es/util.ts:217-230 | the pre-order path to the first node whose id contains the target is non-empty iff some id contains it, and ends at such a node |
| FindTreeIds.PathToIsPath | es/util.ts:217-230 | that path runs from a root of the forest down to a node whose id contains the target |
| FindTreeIds.ChainOfJoin | es/util.ts:219 | the chain built below a list of ancestors is their ids joined by commas, deepest first |
| FindTreeIds.NoHitKeepsFound | es/util.ts:218-227 | when no id contains a comma-free target and the parent chain does not either, the recorded chain is left as it was; this holds on trees an earlier run has rewritten too |
| FindTreeIds.UniqueHitRecordsPath | es/util.ts:218-227 | on a fresh tree with exactly one id containing the target, the recorded chain is the chain of that node's path |
| FindTreeIds.FinderReturnsPath | es/util.ts:217-230 | on a fresh tree (ids non-empty and comma-free) with exactly one id containing a comma-free target, one run returns the ids from the root down to that node |
| FindTreeIds.IdsResultOfChain | es/util.ts:228-229 | splitting and reversing the chain of a path of fresh ids gives the path |
| FindTreeIds.DebugExample | debug.ts:3-22 | `findTreeIds('222222')` on the debug tree returns `['111111', '222222']`; a second run on the rewritten tree returns `['111111', '111111', '222222']` |

## Left out

- `storage` and `countDown` are not modelled. The first reads and writes the
  browser's storage and the second runs on timers; both are host I/O.
- Numbers as `desen` input are left out. So are a numeric `targetId` or node id
  in `findTreeIds` (the code converts them to strings). Every input is a
  string.
- Numbers are integers throughout: `Js.Value`, `SelectOptions.Scalar` and the
  lengths of `Desen.Desen`. Fractions, `NaN` and `-0` are not modelled. With a
  fractional count of stars the `desen` loop rounds the count up, and
  `substring` truncates a fractional index.
- `Desen.Desen`: strings are sequences of Unicode scalar values. JavaScript's
  `length` and `substring` count UTF-16 code units instead. So the model
  differs for characters outside the Basic Multilingual Plane: `desen` can split
  such a character, and it counts one star more per such character.
- `MergeParams.MergeParams`: properties inherited through the prototype chain
  are not modelled. In the source, reading `sourceParams[key]` for a key only
  the target has, such as `toString`, yields an inherited truthy function. Such
  a key is kept. The model treats a missing source key as `undefined` and
  deletes it.
- `Capitalize.ToLower`: only ASCII letters are lowered. `toLowerCase` also
  lowers other Unicode letters, and those are not modelled.
- The `options.id` and `options.children` aliases of the two finders are not
  modelled. Nodes always use `id` and `children`.
- `FindTreeIds.IdsFinder.Finder`: the source rewrites the nodes of the caller's
  tree in place. The model returns the rewritten forest (`visited`) instead.
  Object identity and aliasing between nodes are not modelled.
- `FindTreeObj.ObjFinder.Finder`: the source stores a JSON deep copy of the
  matching node. The model stores the node value, and values have no identity
  to copy. The copy dropping functions and `undefined` fields is not modelled.
- Cyclic trees are not modelled. Trees are finite datatype values.
- `MergeParams.MergeParams`: the case where the target and source are the same
  object is not modelled.
- `MergeParams.MergeParams`: the `for…in` key order is not modelled. Each loop
  picks keys in an arbitrary order. The order cannot change the result, since
  each key is handled independently.
- `TransChar.TransChar` requires at least one function in the pipeline. The
  result of `flowRight` with no functions is not modelled: that case is
  lodash's, and its code is not part of this model.
- Extras that are not functions are not modelled. The extras are Dafny
  functions.
- A target key missing from the table is not modelled. It would map to
  `undefined` and break the pipeline. `TransChar.Key` admits only the four
  keys, as the type declaration does.
- `getLabelByValue` does not search nested `options`, and neither does the
  model.
