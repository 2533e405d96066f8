# Vuikit 0.7.3 core, modelled and verified in Dafny

This project models the logic at the core of the Vuikit bundle
`dist/vuikit.js`:

- the pagination matrix, which lists the page numbers and `'...'` markers a
  pagination bar shows;
- anchored positioning of drop elements: how position names such as
  `bottom-left` are decoded, how `{top, left}` is computed from the target's
  offset and the two sizes, and what `positionEl` does to the element's
  class list and inline size;
- the namespace-keyed registry of DOM event listeners (`on`, `off`,
  `offAll`), and how the position directive rebinds and unbinds its window
  resize handler;
- the small helpers: `get` (a dotted-path lookup), `sanitize`, `toArray`,
  `inArray` and `repeat`;
- the table's selection logic (`isSelected`, `isAllSelected`, the
  `MixinSelect` methods and the `click-row` handler) and `getSortOrder`.

Modules, one per file:

- `Wrappers`: `Option`.
- `Strings`: JavaScript's `split`, `includes` and `sanitize`.
- `Pagination`
- `Position`
- `Events`
- `Values`: JavaScript values, `get`, `toArray`, `inArray`, `repeat`.
- `Table`

Code that changes state step by step is modelled as methods:

- the walk in `paginationMatrix` and the `start`/`end` updates in `getMainPages`;
- the in-place adjustments in `positions$1`;
- the class `Position.DropElement`, the element `positionEl` updates;
- the class `Events.Registry`, holding the `boundEvents` table;
- the loop in `repeat`;
- the class `Table.Selectable`, the table component whose selection methods
  emit `update:selection`.

Each method is proved against a specification function, and the
properties are proved about those functions.

Where the code does something its authors evidently did not intend (see
Findings), the operation is modelled as written under its own name
(`PositionEl`, `ToggleSelection`, `ClickRow`, `SetResizeEvent`,
`UnbindAsWritten`). The repaired behaviour sits beside it (`PositionElFixed`,
`ToggleSelectionFixed`, `ResetResizeEvent`, `Unbind`), and lemmas state what
each does and when the two agree.

DOM calls are inputs or logged effects:

- Sizes, offsets, the offset parent and the scroll are parameters of the
  positioning operations.
- `addEventListener` and `removeEventListener` are entries of a ghost log,
  `Events.Effect`. `Events.Live` replays the log to the set of attached
  listeners.
- Elements and listeners are identities (`nat`).

## Model

| member | source | states |
|---|---|---|
| Strings.Split | dist/vuikit.js:907 | `split(sep)` always yields at least one part, and no part contains the separator |
| Strings.JoinSplit | dist/vuikit.js:907 | joining the parts of a split with the separator gives back the string |
| Strings.SplitJoin | dist/vuikit.js:961-962 | splitting a join of separator-free parts gives back the parts |
| Strings.SplitAround | dist/vuikit.js:961-962 | splitting `a + sep + b` gives the parts of `a` followed by the parts of `b` |
| Strings.SplitWithout | dist/vuikit.js:961 | a string without the separator splits into itself |
| Strings.ContainsAt | dist/vuikit.js:795-799 | `includes(hay, needle)` holds exactly when the needle occurs at some index of the haystack |
| Strings.Sanitize | dist/vuikit.js:27-29 | `sanitize` yields only non-empty words without spaces |
| Strings.SanitizeKeepsText | dist/vuikit.js:27-29 | the words of `sanitize`, concatenated, are the input with its spaces removed |
| Strings.SanitizeJoin | dist/vuikit.js:27-29 | sanitizing space-joined non-empty words gives back the words |
| Strings.SanitizeAround | dist/vuikit.js:275-277 | sanitizing `a + " " + b` gives the words of `a` followed by the words of `b` |
| Strings.ConcatSplit | dist/vuikit.js:28 | concatenating the parts of a split gives the string without the separator |
| Strings.NonEmptyAppend | dist/vuikit.js:28 | `filter(c => c)` distributes over concatenation |
| Pagination.FloorDiv | dist/vuikit.js:288 | `Math.floor(a / b)` is the integer `q` with `q*b <= a < (q+1)*b` (mirrored for negative `b`) |
| Pagination.Range | dist/vuikit.js:282-289 | `range(start, stop, step)` fails with `RangeError` exactly when the length `floor((stop-start)/step)` is negative; otherwise element `i` is `start + i*step` and the length is that floor |
| Pagination.RangeIsInterval | dist/vuikit.js:282-289 | with step 1, `range(start, stop)` is the half-open interval `[start, stop)` |
| Pagination.TotalPages | dist/vuikit.js:2425 | `Math.ceil(total / perPage)` is the least `t` with `total <= t*perPage` |
| Pagination.GetMainPages | dist/vuikit.js:2452-2469 | the imperative `start`/`end` updates compute `MainPages` |
| Pagination.MainPagesWindow | dist/vuikit.js:2452-2469 | for `range >= 0` and `totalPages >= 1` the window is a contiguous ascending run of `min(2*range+1, totalPages)` pages inside `[1, totalPages]` |
| Pagination.PaginationMatrix | dist/vuikit.js:2413-2450 | the method computes `Matrix`; with fewer than two pages it returns `[1]`; otherwise it fails exactly when `range` is negative |
| Pagination.WalkPages | dist/vuikit.js:2438-2447 | the `forEach` loop that pushes onto `matrix` and updates `nextPage` computes `Walk` |
| Pagination.WalkRun | dist/vuikit.js:2438-2447 | a run of consecutive pages starting at the expected page is shown without a marker |
| Pagination.WalkNumbers | dist/vuikit.js:2438-2447 | the walk keeps every page it is given, in order, and adds only markers |
| Pagination.WalkMarkers | dist/vuikit.js:2438-2447 | over pages that step by 1 or by at least 3, every marker the walk emits sits between two pages at least three apart |
| Pagination.ShownSteps | dist/vuikit.js:2432-2436 | pre-pages, window and post-pages together start at 1, end at `totalPages`, include the window, and step by 1 or by at least 3 (the `first <= 3` and `last >= totalPages - 2` thresholds) |
| Pagination.StepsIncrease | dist/vuikit.js:2435-2436 | pages that step by 1 or at least 3 strictly increase |
| Pagination.MatrixIsWalk | dist/vuikit.js:2431-2447 | for two or more pages and `range >= 0`, the matrix is the walk over the shown pages |
| Pagination.MatrixOrdered | dist/vuikit.js:2431-2449 | for two or more pages the matrix starts with page 1 and ends with the last page, and its page numbers strictly increase inside `[1, totalPages]` |
| Pagination.MatrixMarkers | dist/vuikit.js:2435-2447 | adjacent page entries are consecutive pages; every `'...'` lies strictly inside, between two page entries at least three apart, so it is never first, never doubled and hides at least two pages |
| Pagination.MatrixShowsWindow | dist/vuikit.js:2431-2449 | every page of the main window, and so the current page when it exists, appears in the matrix |
| Pagination.DefaultMatrix | dist/vuikit.js:2408 | the defaults (200 items, page 1, 10 per page, range 3) give `[1, 2, 3, 4, 5, 6, 7, '...', 20]` |
| Pagination.SmallMatrices | dist/vuikit.js:2425-2429 | two pages show `[1, 2]`; no items still show `[1]` |
| Position.FlipInvolution | dist/vuikit.js:969-982 | `flipPosition` applied twice is the identity, and it changes exactly the four side words |
| Position.GetAxis | dist/vuikit.js:984-989 | `getAxis` answers `'x'` or `'y'` |
| Position.AxisOfNames | dist/vuikit.js:984-989 | for a position name, `getAxis` is `'y'` exactly when the primary part is `top` or `bottom` |
| Position.Positions | dist/vuikit.js:808-860 | `positions$1` puts the point of the element named by `my` exactly on the point of the target named by `their`, after the offset-parent or scroll correction |
| Position.GetCords | dist/vuikit.js:960-967 | `getCords` aligns the flipped-primary keyword point of the element with the primary keyword point of the target; each of the fourteen names places the element against the named side, aligned as the secondary word says |
| Position.PlacedByAnchors | dist/vuikit.js:832-854 | the two anchor equations imply the placement each name promises |
| Position.WordsContain | dist/vuikit.js:832-854 | a two-word keyword string contains a side word exactly when one of its words is that side |
| Position.NameParts | dist/vuikit.js:658 | each of the fourteen names is a side, a dash, and a word for the other axis, with `justify` only after `top` or `bottom` |
| Position.SplitName | dist/vuikit.js:961-962 | `a + "-" + b` splits into `[a, b]` when neither part has a dash |
| Position.KeyChar | dist/vuikit.js:832-854 | each side word has a letter no other keyword word has |
| Position.WithoutDropMembers | dist/vuikit.js:910-915 | removing every position class keeps exactly the other classes |
| Position.WithoutDropNoDup | dist/vuikit.js:910-915 | removing every position class keeps a class list free of duplicates |
| Position.RemoveToken | dist/vuikit.js:301-303 | `classList.remove(t)` keeps exactly the tokens other than `t` |
| Position.AddTokens | dist/vuikit.js:16-25 | `addClass` keeps the existing classes in front, adds every word, and never duplicates a token |
| Position.LiveRemovalSkips | dist/vuikit.js:911-915 | the live `forEach` removal as written leaves `uk-drop-bottom-left` after `uk-drop-top-left`, where every position class should go |
| Position.LiveRemovalOneDrop | dist/vuikit.js:911-915 | when the list holds at most one position class, the live removal as written removes it and leaves the rest in order, like removing every position class |
| Position.DropClassOfName | dist/vuikit.js:931 | for the fourteen names, `'uk-drop-' + position` sanitizes to that single class, and it is a position class |
| Position.ClassesAfter | dist/vuikit.js:910-931 | when every old position class is removed, adding the class of one of the fourteen names leaves that class and no other position class |
| Position.ClassesAfterLive | dist/vuikit.js:910-931 | with the live removal as written the same holds when the list had at most one position class before |
| Position.JustifyAxis | dist/vuikit.js:917-921 | the `justify` names are on the `'y'` axis, so `positionEl` sets their width |
| Position.JustifySpan | dist/vuikit.js:917-921 | a `justify` element as wide as its target starts at the target's left edge |
| Position.DropElement.RemoveDropClassesLive | dist/vuikit.js:910-915 | the `forEach` over the live class list, as written, performs `LiveRemoval` and changes nothing else |
| Position.DropElement.RemoveDropClasses | dist/vuikit.js:910-915 | the corrected removal takes out every position class, keeps the other classes in order, and changes nothing else |
| Position.DropElement.Place | dist/vuikit.js:917-930 | `justify` sets the width (for `top`/`bottom`) or the height to the target's, other names clear both; the element lands where the name says; a `justify` element spans the target; the classes are untouched |
| Position.DropElement.AddPositionClass | dist/vuikit.js:931 | `addClass(el, 'uk-drop-' + position)` adds the sanitized words, so for the fourteen names the name's class is present |
| Position.DropElement.PositionEl | dist/vuikit.js:901-932 | `positionEl` as written: the live removal, then the sizing and placement of `Place`, then the new class; the new class is present, and it is the only position class when the list had at most one before |
| Position.DropElement.PositionElFixed | dist/vuikit.js:901-932 | `positionEl` with the corrected removal: the same sizing and placement, and the class list ends up with exactly one position class, the name's |
| Events.WithNamespace | dist/vuikit.js:219-224 | `getEvents` only creates the namespace, as an empty list; no listed entry changes |
| Events.Find | dist/vuikit.js:234-236 | `find` returns the first entry for the same element and type, and none exactly when no entry matches |
| Events.Registered | dist/vuikit.js:262-273 | `on` appends one entry per non-empty word of the type, in order, to the namespace's list, and leaves every other namespace as it was |
| Events.RegisteredSplit | dist/vuikit.js:262-266 | `on` with `"a b"` is `on` with `"a"` followed by `on` with `"b"` |
| Events.LiveAttaches | dist/vuikit.js:272 | attaching a list of entries adds exactly those listeners |
| Events.LiveDetaches | dist/vuikit.js:255 | detaching a list of entries removes exactly those listeners |
| Events.OffAllUndoesOn | dist/vuikit.js:246-273 | `offAll` after `on` restores every other namespace and leaves none of the namespace's listeners attached |
| Events.Registry.GetEvents | dist/vuikit.js:219-224 | returns the list of the namespace (`'default'` when none is given) and creates it, empty, when missing |
| Events.Registry.DeleteNamespace | dist/vuikit.js:226-228 | removes the namespace and nothing else |
| Events.Registry.Off | dist/vuikit.js:231-241 | detaches the first matching listener and leaves every registry entry in place |
| Events.Registry.OffAll | dist/vuikit.js:246-259 | detaches every listener of the namespace (`'default'` when none is given), in order, then deletes exactly that namespace |
| Events.Registry.OnOne | dist/vuikit.js:268-273 | `_on` appends one entry and attaches one listener |
| Events.Registry.On | dist/vuikit.js:262-266 | the loop over the words performs `Registered` and attaches each listener |
| Events.Registry.SetResizeEvent | dist/vuikit.js:894-899 | the rebind as written: `off`, then `on`, in the `drop-ui` namespace |
| Events.Registry.ResetResizeEvent | dist/vuikit.js:894-899 | the corrected rebind: `offAll`, then `on` |
| Events.RebindAsWrittenStep | dist/vuikit.js:894-899 | as written, a rebind detaches the handler of the first entry and appends the new entry behind the old ones |
| Events.RebindAsWrittenLeaks | dist/vuikit.js:894-899 | as written, after three rebinds the second and third handlers are both attached |
| Events.RebindReplaces | dist/vuikit.js:894-899 | the corrected rebind leaves the new handler as the only entry and detaches every earlier one |
| Events.RebindKeepsOne | dist/vuikit.js:894-899 | with the corrected rebind exactly one resize handler stays attached, and the registry covers it |
| Events.Registry.UnbindAsWritten | dist/vuikit.js:889-891 | the `unbind` as written deletes the namespace keyed by the window object |
| Events.Registry.Unbind | dist/vuikit.js:889-891 | the corrected `unbind` detaches the `drop-ui` listeners and deletes that namespace |
| Events.UnbindAsWrittenLeaves | dist/vuikit.js:889-891 | as written, unbinding after a rebind leaves the handler attached and registered |
| Events.UnbindDetaches | dist/vuikit.js:889-891 | the corrected unbind leaves no resize listener of the window attached |
| Values.NatToString | dist/vuikit.js:163 | array index names are non-empty digit strings without a leading zero |
| Values.ParseIndex | dist/vuikit.js:163 | a key read as an array index is the canonical decimal name of that index |
| Values.IndexOfNatToString | dist/vuikit.js:163 | every index's canonical name is read back as that index |
| Values.CanonicalDigits | dist/vuikit.js:163 | a digit string without a leading zero is the canonical name of its value |
| Values.Get | dist/vuikit.js:148-160 | `get` returns the default when `obj` is not an object or `path` is not a string, and in place of a value found that is `undefined`; otherwise the value found; so `undefined` only when the default is |
| Values.LookupFalsy | dist/vuikit.js:163 | once the accumulator is falsy, `acc && acc[val]` keeps it for the rest of the path |
| Values.LookupAppend | dist/vuikit.js:163 | the reduction over two key lists is the reduction over the first, then the second |
| Values.GetPathCompose | dist/vuikit.js:162-164 | looking up `p1.p2` is looking up `p2` in the value at `p1` |
| Values.GetPathSingle | dist/vuikit.js:162-164 | a path without a dot is one property step |
| Values.PathOfTwo | dist/vuikit.js:162-164 | a two-key path is two property steps |
| Values.SplitLookupFalsy | dist/vuikit.js:162-164 | a falsy starting value is the result for any path |
| Values.GetStopsAtFalsy | dist/vuikit.js:152-164 | when the value at `p1` is falsy other than `undefined`, `get` of any longer path returns it, not the default |
| Values.GetNested | dist/vuikit.js:152-164 | a nested property is found, a missing one gives the default |
| Values.GetArray | dist/vuikit.js:152-164 | an array element and an array's `length` are found by name |
| Values.ToArray | dist/vuikit.js:312-318 | `toArray` returns an array as it is, items in order; `[]` for `null` and `undefined`; `[v]` for any other value; so its elements are the array's items or `v` itself |
| Values.ToArrayIdempotent | dist/vuikit.js:312-318 | converting the result again changes nothing |
| Values.IndexOf | dist/vuikit.js:177 | `indexOf` is the first position of the value, and -1 exactly when it is absent (also the table's `indexOf(row)` by identity) |
| Values.InArray | dist/vuikit.js:176-178 | `inArray` holds exactly when the array is given and contains the value |
| Values.Rep | dist/vuikit.js:484-492 | `str` repeated `n` times has length `n*|str|` |
| Values.RepBlock | dist/vuikit.js:484-492 | block `k` of the repetition is `str` |
| Values.RepAdd | dist/vuikit.js:487 | repeating `a + b` times is repeating `a` times, then `b` times |
| Values.RepDouble | dist/vuikit.js:488 | repeating the doubled string `k` times is repeating the string `2k` times |
| Values.Repeat | dist/vuikit.js:484-492 | the squaring loop returns `str` repeated `n` times |
| Table.SelectedRows | dist/vuikit.js:3355-3358 | the filtered rows are selected rows of the list, and they are all of them exactly when every row is selected |
| Table.IsAllSelected | dist/vuikit.js:3354-3365 | `isAllSelected` holds exactly when there are rows and every one is selected |
| Table.IndexOfId | dist/vuikit.js:3101-3104 | `findIndex` by `id` is the first position with the same id, and -1 exactly when the row is not selected |
| Table.SpliceOne | dist/vuikit.js:3114 | `splice(i, 1)` removes the element at `i`; a negative `i` counts from the end, and one below `-length` removes the first element; an `i` past the end removes nothing |
| Table.Unselected | dist/vuikit.js:3111-3117 | the corrected `unselectRow` removes the first selected row with the same id |
| Table.UnselectAsWrittenDropsLast | dist/vuikit.js:3111-3114 | as written, toggling a different object with a selected id drops the last row and leaves the id selected; the corrected version drops the matching row |
| Table.UnselectAgrees | dist/vuikit.js:3101-3114 | when the row is itself in the selection and ids are unique, `indexOf` finds the row `isSelected` found, so `unselectRow` as written removes it |
| Table.ToggledAgrees | dist/vuikit.js:3118-3120 | under the same condition `toggleSelection` as written emits what the corrected toggle emits |
| Table.ToggleTwiceAsWritten | dist/vuikit.js:3111-3120 | toggling an unselected row twice as written gives back the selection |
| Table.ToggleFlipsAsWritten | dist/vuikit.js:3111-3120 | with unique ids and the selected object passed, toggling as written flips whether the row is selected, keeps ids unique and keeps every row with another id |
| Table.ToggleTwice | dist/vuikit.js:3118-3120 | toggling an unselected row twice with the corrected toggle gives back the selection |
| Table.ToggleFlips | dist/vuikit.js:3118-3120 | with unique ids, the corrected toggle flips whether the row is selected, keeps ids unique and keeps every row with another id |
| Table.GetSortOrder | dist/vuikit.js:3453-3460 | `'asc'` becomes `'desc'` and anything else `'asc'`; without `multi` only the sorted column remains, with it every other column keeps its order |
| Table.SortOrderAlternates | dist/vuikit.js:3453-3460 | after the first click each click on the column flips its order, and two clicks restore the sort |
| Table.Selectable.UpdateSelection | dist/vuikit.js:3121-3123 | emits the new selection and changes nothing else |
| Table.Selectable.SelectRow | dist/vuikit.js:3106-3110 | emits the selection with the row appended |
| Table.Selectable.UnselectRowAsWritten | dist/vuikit.js:3111-3117 | emits the selection spliced at `indexOf(row)` |
| Table.Selectable.UnselectRow | dist/vuikit.js:3111-3117 | emits the selection without the first row that has the row's id |
| Table.Selectable.ToggleSelection | dist/vuikit.js:3118-3120 | as written: a row selected by `id` is unselected with `indexOf`, any other is appended |
| Table.Selectable.ToggleSelectionFixed | dist/vuikit.js:3118-3120 | the corrected toggle: a row selected by `id` is unselected by `id`, any other is appended |
| Table.Selectable.ClickRow | dist/vuikit.js:3128-3134 | a single-select table emits just the row, a selectable one toggles it as written, any other does nothing |

## Left out

- DOM measurement (`offset`, `size`, `needsOffset`, `getBoundingClientRect`, scroll reads, `css`): their results are parameters. The fallback `document.body.scrollTop || document.documentElement.scrollTop` is one `pageScroll` input.
- Position.DropElement.PositionEl: does not model the `'px'` strings written to the style, because they are string formatting.
- Position.DropElement.PositionEl: takes the position already resolved and the target's size and offset as inputs. The `merge` with the directive's defaults (dist/vuikit.js:862-868, `position: 'bottom-left'`, `target: false`) is not modelled, because it is option plumbing.
- Position.DropElement.PositionEl: does not model a missing target. `target` then defaults to `false` (dist/vuikit.js:865), and `getBoundingClientRect` on it throws a `TypeError` (dist/vuikit.js:751). A size parameter cannot express that.
- Position.DropElement.PositionEl: promises a single position class only when the list had at most one before, because the live `forEach` as written can leave an old one (see Findings); Position.DropElement.PositionElFixed promises it always.
- Position.DropElement.Measured: takes `size(el)`, i.e. `offsetWidth`/`offsetHeight` (dist/vuikit.js:758-791), to be the inline width or height when one is set. That holds only with border-box sizing and no padding, border or min/max constraints, so Position.JustifySpan and the `justify` clauses of the positioning methods assume it.
- Coordinates and sizes are exact `real`s, not IEEE doubles, so rounding in `/ 2` is not modelled.
- Timers: `debounce`, and the `setTimeout` deferral in the directive hooks. A resize handler is an opaque listener identity.
- `doesDiffer`, `flatten` and `isEqual` depend on `JSON.stringify` and `outerHTML`, which are not part of this model.
- `getFnArgs` applies regular expressions to function source text, so it is not part of this model.
- The core-js polyfill block, every Vue render function and component, and the icon, nav and form-label files are not part of this model. They are framework glue.
- Pagination.PaginationMatrix: takes all four fields as inputs. The defaults for missing fields (dist/vuikit.js:2413-2422) are not modelled. The only caller (dist/vuikit.js:2514) passes no `range`, so the component always runs with range 3 and never reaches the `RangeError` of a negative range.
- Pagination.PaginationMatrix: requires `perPage != 0`, because JavaScript then divides into `Infinity` or `NaN`. Non-integer `total`, `page`, `perPage` and `range` are not modelled.
- Pagination.Range: only the three-argument form is modelled, because the core never calls `range` with a single argument.
- Values.Repeat: requires `0 <= n < 2^31`, because for a negative `n` the `n >>= 1` loop never ends, and larger counts wrap to 32 bits, which is not modelled.
- Values: numbers are integers; there are no prototype properties other than array and string `length`.
- Values.InArray: objects and arrays compare by structure, not by identity as `===` does.
- Table.GetSortOrder: a Dafny map has no key order, so the insertion order that `merge` gives the sort object, which is the priority of a multi-column sort, is not modelled.
- Table: a row's `id` is an integer, so rows without an `id` (all of which compare equal as `undefined`) are not modelled.
- Table.Selectable: the parent component writing the emitted selection back into the `selection` prop is not modelled; the methods record what they emit.
- Events: the DOM calls are a ghost log of attach and detach effects. Listener order within the DOM and duplicate-listener suppression are summarised by `Events.Live`. `boundEvents` is modelled as a map, but in the source it is a plain object `{}` (dist/vuikit.js:217). A namespace such as `"constructor"` or `"toString"` then reads an inherited property, `getEvents` returns a non-array, and the next `push` or `find` throws a `TypeError`; the map model does not capture this.
- Events.Registry.ResetResizeEvent: every `vk-position` element uses the same `drop-ui` namespace (dist/vuikit.js:890, 895). The corrected `offAll('drop-ui')` rebind therefore also detaches the resize handlers of the other positioned elements, and `Events.Registry.Unbind` does the same. `Events.RebindKeepsOne` means one resize handler in total, not one per element; the model has a single window and no per-element handler.

## Findings

| source | as written | input that shows it | evidently intended | confidence | as-written member | corrected member |
|---|---|---|---|---|---|---|
| dist/vuikit.js:911-915 | `classList.forEach` removes classes from the live list it is iterating, so the class after a removed one is skipped | class list `uk-drop-top-left uk-drop-bottom-left` | every `uk-drop-` class is removed before the new one is added | high; not executed | Position.LiveRemovalSkips | Position.DropElement.PositionElFixed |
| dist/vuikit.js:894-899 | `setResizeEvent` calls `off`, which detaches the first registered handler but keeps every entry, then `on` appends another | three rebinds with handlers 1, 2, 3 | each rebind replaces the previous resize handler, leaving one resize handler in total in the `drop-ui` namespace, which every positioned element shares | high; not executed | Events.RebindAsWrittenLeaks | Events.RebindKeepsOne |
| dist/vuikit.js:889-891 | `unbind` calls `offAll(window, 'resize', 'drop-ui')`, but `offAll` takes only the namespace, so it clears the namespace named by the window object | one rebind, then unbind | the `drop-ui` listeners are detached on unbind | high; not executed | Events.UnbindAsWrittenLeaves | Events.UnbindDetaches |
| dist/vuikit.js:3111-3114 | `unselectRow` finds the row by identity while `isSelected` matches by `id`; when it is not found, `splice(-1, 1)` drops the last row | selection of rows with ids 10 and 20, toggling another object with id 10 | the row with the same id is removed | medium; not executed | Table.UnselectAsWrittenDropsLast | Table.Selectable.ToggleSelectionFixed |
