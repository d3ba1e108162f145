# ui0 JSX decomposition, modelled in Dafny

The `ui0` crate splits a JSX element into *templates* and *slots*:

- A template is the static markup of one element, as a sequence of text atoms.
- A slot records where dynamic content goes: a component, an expression container, or a spread. Its `index` is the number of atoms already in the template when the slot was recorded.

Every component starts its own (template, slot list) pair. A native element (a lower-case tag) is inlined into the template that is open when it is reached. The diagnostic pass in `lib.rs` then plays each pair back into one line of text. It writes `<Name>`, `{}` or `{...}` after the atom a slot points past.

The project has four modules:

- `Jsx` (`jsx.dfy`) holds the data model (`Slot`, `SlotKind`, templates, the forest of pairs). It also holds `Element`, a class with the walker's four fields:
  - the template stack;
  - the slot-list stack;
  - the closed templates;
  - the closed slot lists.

  The methods `FromJsxElement`, `ProcessJsx` (split into `ProcessComponent` and `ProcessNative`) and `ProcessChildren` update these fields the way the Rust methods do. Each method is proved against a pure, compositional description of the walk. `EmitElement` and `EmitChildren` give, for a subtree, the atoms and slots it appends to the open frame and the pairs it closes. `Walk` gives the whole forest. A `todo!()` or a failed `unwrap()` is a `Panic` value that ends the walk.
- `JsxProperties` (`jsx_properties.dfy`) proves the following about `Walk`:
  - every slot list is ordered and points inside its template;
  - there is one pair per component (plus the root's pair) and one component slot per component;
  - the walk fails exactly on the unsupported inputs.
- `Reconstruct` (`reconstruct.dfy`) models the playback loop as a method with a single cursor. It is proved against `Render`, which plays the longest prefix of the slot list whose indices are strictly increasing and within `1..|template|`. That prefix is exactly what the cursor can reach.
- `Scenarios` (`scenarios.dfy`) works through concrete inputs: the forest each walk yields and the line the playback writes.

The code writes an opening tag as three atoms `"<"`, name, `">"` and a closing tag as `"</"`, name, `">"`. The model follows the code. So the slot right after `<div>` has index 3, not 1 as a one-atom-per-tag reading would give.

## Model

| member | source | states |
|---|---|---|
| Jsx.IsComponentName | crates/ui0/src/jsx.rs:62-64 | the classifier (a name differing from its lower-cased form) holds exactly when the name contains an upper-case letter |
| Jsx.ComponentNameHasUpper | crates/ui0/src/jsx.rs:63 | lower-casing changes a name exactly when it contains an upper-case letter |
| Jsx.ErrPersists | crates/ui0/src/jsx.rs:66-100 | once a child panics, the walk of the remaining children ends with that same panic |
| Jsx.EmitElement | crates/ui0/src/jsx.rs:102-166 | the compositional description of process_jsx for one element; every successful walk of it closes as many slot lists as templates |
| Jsx.EmitChildren | crates/ui0/src/jsx.rs:66-100 | the same description for the first `k` children, taken in order; the closed pairs stay aligned |
| Jsx.EmitChild | crates/ui0/src/jsx.rs:67-98 | the same description for one child of each of the five kinds; the closed pairs stay aligned |
| Jsx.Walk | crates/ui0/src/jsx.rs:37-60 | the whole decomposition of a root: a successful walk yields as many slot lists as templates, at least one pair for an identifier root, and only an identifier root can fail |
| Jsx.Opened | crates/ui0/src/jsx.rs:102-166 | the state process_jsx leaves behind: the stacks stay aligned, keep their height when a frame is open and hold one frame after a native element on empty stacks, and the outputs grow by as many templates as slot lists |
| Jsx.CloseFrame | crates/ui0/src/jsx.rs:120-135 | pushing an empty frame pair, filling it and popping it to the outputs leaves the stacks as they were and appends the filled pair after the pairs closed inside it |
| Jsx.NativeClose | crates/ui0/src/jsx.rs:137-160 | opening tag, children, then closing tag appended to the open frame give the native element's whole contribution |
| Jsx.OpenedComponent | crates/ui0/src/jsx.rs:107-135 | with an open frame, a component adds a slot at the current template length to the open slot list and closes its children's pair; a child's panic propagates |
| Jsx.OpenedNative | crates/ui0/src/jsx.rs:136-161 | a native element adds `<`, name, `>`, its children and `</`, name, `>` to the open frame, or to a fresh frame pair when none is open |
| Jsx.WithFrame | crates/ui0/src/jsx.rs:137-150 | a native element finds a frame pair open: the open one when there is one, otherwise a fresh empty template and slot list; the stacks stay aligned |
| Jsx.WalkFromEmpty | crates/ui0/src/jsx.rs:49-57 | starting from empty stacks, processing the root and popping the at most one frame left gives the whole walk and fails exactly when the walk fails |
| Jsx.Element.constructor | crates/ui0/src/jsx.rs:38-47 | a new walker has empty stacks and no closed pairs |
| Jsx.Element.FromJsxElement | crates/ui0/src/jsx.rs:37-60 | the templates and slot lists produced are exactly those of `Walk`, and the method panics exactly when `Walk` fails |
| Jsx.Element.ProcessChildren | crates/ui0/src/jsx.rs:66-100 | the children, in order, append their atoms and slots to the open frame and their closed pairs to the outputs; it panics on a spread or an empty expression container, keeps the stacks aligned and leaves their height unchanged |
| Jsx.Element.ProcessChild | crates/ui0/src/jsx.rs:67-98 | one child: an element is processed recursively, text is appended, an expression container adds a slot, a spread is not implemented, a fragment changes nothing; the outcome and the new state are those of the child's specification |
| Jsx.Element.PushText | crates/ui0/src/jsx.rs:72-78 | the text atom is appended to the open template and nothing else changes |
| Jsx.Element.PushExpression | crates/ui0/src/jsx.rs:82-94 | a non-empty container adds an expression slot at the open template's length to the open slot list; an empty one fails its unwrap |
| Jsx.Element.ProcessJsx | crates/ui0/src/jsx.rs:102-166 | the new state is the old state with the element's contribution absorbed; a name that is not an identifier changes nothing; the method panics exactly when the specification does |
| Jsx.Element.ProcessComponent | crates/ui0/src/jsx.rs:107-135 | the component branch: the slot at the current template length, a pushed pair filled by the children and popped to the outputs; a top-level component is not implemented |
| Jsx.Element.ProcessNative | crates/ui0/src/jsx.rs:136-161 | the native branch: the tag atoms around the children in the open frame, which is created lazily when the stacks are empty |
| Jsx.Element.PushOpenTag | crates/ui0/src/jsx.rs:137-150 | `<`, name, `>` go to the open template, or start a new template with an empty slot list beside it when no frame is open |
| Jsx.Element.PushCloseTag | crates/ui0/src/jsx.rs:154-160 | `</`, name, `>` go to the open template and nothing else changes |
| JsxProperties.ElementSound | crates/ui0/src/jsx.rs:102-166 | an element's slots are ordered and lie between the position where it starts and the position where it ends; every pair it closes is aligned and its slots fit their template |
| JsxProperties.ChildrenSound | crates/ui0/src/jsx.rs:66-100 | the same for any prefix of the children |
| JsxProperties.ChildSound | crates/ui0/src/jsx.rs:67-98 | a single child's slots are ordered, start at its position and lie within its atoms; the pairs it closes are sound |
| JsxProperties.WalkWellFormed | crates/ui0/src/jsx.rs:37-60 | in a successful walk there are as many slot lists as templates, and every slot list is in non-decreasing index order with indices between 0 and its template's length |
| JsxProperties.ElementCounts | crates/ui0/src/jsx.rs:107-135 | an element closes one pair per component in its subtree and records one component slot per component |
| JsxProperties.ChildrenCounts | crates/ui0/src/jsx.rs:66-100 | the same for any prefix of the children |
| JsxProperties.ChildCounts | crates/ui0/src/jsx.rs:67-98 | a single child closes one pair and records one component slot per component it holds; text, expressions and fragments hold none |
| JsxProperties.WalkCounts | crates/ui0/src/jsx.rs:37-60 | a successful walk has one pair per component plus one for an identifier root, and exactly one component slot per component |
| JsxProperties.ElementFails | crates/ui0/src/jsx.rs:79-118 | an element's walk panics if and only if the part of its subtree the walk visits (elements named by an identifier) holds a spread child or an empty expression container |
| JsxProperties.ChildrenFail | crates/ui0/src/jsx.rs:66-100 | the same, child by child, for any prefix of the children |
| JsxProperties.ChildFails | crates/ui0/src/jsx.rs:67-98 | a single child panics if and only if it is a spread, an empty expression container, or an element whose visited subtree holds one |
| JsxProperties.WalkFails | crates/ui0/src/jsx.rs:102-118 | a walk panics if and only if the root is a component or its tree holds a spread child or an empty expression container |
| JsxProperties.WalkRootFrameLast | crates/ui0/src/jsx.rs:51-57 | for a native root, the last template is the root's own, opening and closing with its tag |
| JsxProperties.ComponentFrameLast | crates/ui0/src/jsx.rs:107-135 | a component adds no atoms to the open frame, only its slot; its own pair is closed after every pair nested in it |
| Reconstruct.PlayedFrom | crates/ui0/src/lib.rs:84-103 | extends a playable prefix of the slots to the longest one |
| Reconstruct.Played | crates/ui0/src/lib.rs:84-103 | the length of the longest prefix of the slots with strictly increasing indices within 1..n, the slots the cursor reaches |
| Reconstruct.PlaceholderShape | crates/ui0/src/lib.rs:88-101 | a component's placeholder is its name in angle brackets, empty only for a component whose name is not an identifier; an expression's and a spread's are in braces, the spread one five characters long |
| Reconstruct.PlaceholdersAtNone | crates/ui0/src/lib.rs:87-102 | no placeholder is written at a position no slot points to |
| Reconstruct.PlaceholdersAtOne | crates/ui0/src/lib.rs:87-102 | at a position exactly one slot points to, that slot's placeholder is written |
| Reconstruct.PlaybackStep | crates/ui0/src/lib.rs:85-103 | the cursor's test at atom `i` succeeds exactly when the next played slot points past that atom, and then only that slot's placeholder is due |
| Reconstruct.PlayedHit | crates/ui0/src/lib.rs:87-100 | a played slot under the cursor pointing past atom `i` is the only played slot with that index, so only its placeholder is written there |
| Reconstruct.PlayedMiss | crates/ui0/src/lib.rs:87 | when the next played slot lies beyond atom `i + 1`, nothing is written after atom `i` |
| Reconstruct.CursorHitIsPlayed | crates/ui0/src/lib.rs:87 | when every slot before the cursor points at or before atom `i`, a slot under the cursor pointing past atom `i` is one of the played slots |
| Reconstruct.Reconstruct | crates/ui0/src/lib.rs:83-104 | the line built equals the atoms in order, each followed by the placeholder of the played slot pointing past it |
| Reconstruct.ReconstructAll | crates/ui0/src/lib.rs:82-106 | one line per position of the shorter sequence of the zipped pair, each the rendering of its pair |
| Reconstruct.RenderEmptyTemplate | crates/ui0/src/lib.rs:83-86 | an empty template yields the empty line, whatever the slots |
| Reconstruct.RenderedNoSlots | crates/ui0/src/lib.rs:85-86 | without slots the line is the concatenation of the atoms |
| Reconstruct.RenderAtomsOnly | crates/ui0/src/lib.rs:85-87 | with no slots, or a first slot at index 0, the line is the atoms alone |
| Reconstruct.RenderedBefore | crates/ui0/src/lib.rs:85-87 | before the cursor reaches any slot, the output is the atoms alone |
| Reconstruct.RenderedGap | crates/ui0/src/lib.rs:85-87 | between two positions that no slot points into, the atoms are written as they are |
| Reconstruct.RenderedAtOne | crates/ui0/src/lib.rs:85-100 | a lone slot's placeholder is written right after the atoms before its index |
| Reconstruct.RenderedAfterOne | crates/ui0/src/lib.rs:85-103 | a lone slot's placeholder sits between the atoms before its index and the atoms after it |
| Reconstruct.RenderOneSlot | crates/ui0/src/lib.rs:85-103 | a pair whose first slot fits and is alone, or is followed by one with the same index, plays back as the atoms before the index, the placeholder, then the remaining atoms |
| Reconstruct.UnplayableSlotBlocks | crates/ui0/src/lib.rs:87 | a slot at index 0 or beyond the template is never written, and neither is any slot after it |
| Reconstruct.SameIndexOnlyFirst | crates/ui0/src/lib.rs:87-102 | of two neighbouring slots with the same index, the second and all later ones are never written |
| Reconstruct.EveryPlaceholderOnce | crates/ui0/src/lib.rs:85-103 | when the indices are strictly increasing within 1..n, every slot is written exactly once, right after atom `index - 1`, and nothing is written elsewhere |
| Reconstruct.AllPlayedIff | crates/ui0/src/lib.rs:87-102 | for a slot list that fits its template, every slot is written if and only if the first index is at least 1 and no two neighbours share an index |
| Reconstruct.WalkedPairPlayedIff | crates/ui0/src/lib.rs:78-103 | for every pair of a successful walk, playback writes all its slots if and only if no slot sits at index 0 and no two neighbours share an index |
| Scenarios.NativeTextOnly | crates/ui0/src/jsx.rs:136-161 | `<span>Hello</span>` yields one template of seven atoms and an empty slot list |
| Scenarios.OnlyComponentChild | crates/ui0/src/jsx.rs:107-161 | a native element whose only child is a component closes the component's pairs first, then its own pair, which holds the component slot at index 3 |
| Scenarios.ExpressionSlot | crates/ui0/src/jsx.rs:82-87 | in `<div>Hello, {X}!</div>` the expression slot has index 4, after the text before it |
| Scenarios.ExpressionSlotRender | crates/ui0/src/lib.rs:85-97 | that pair plays back as `<div>Hello, {}!</div>` |
| Scenarios.NestedComponent | crates/ui0/src/jsx.rs:107-135 | in `<div><Test><div>Test</div></Test></div>` the component's pair is closed first and the outer template holds its slot at index 3 |
| Scenarios.NestedComponentRender | crates/ui0/src/lib.rs:89-93 | the outer pair plays back as `<div><Test></div>` |
| Scenarios.EmptyComponent | crates/ui0/src/jsx.rs:120-135 | a component without children still closes an empty pair |
| Scenarios.Unsupported | crates/ui0/src/jsx.rs:79-118 | a spread child or a component root is not implemented; an empty expression container fails its unwrap |
| Scenarios.AdjacentExpressions | crates/ui0/src/jsx.rs:82-87 | in `<div>{a}{b}</div>` both slots get index 3 |
| Scenarios.AdjacentExpressionsRender | crates/ui0/src/lib.rs:87 | that pair plays back as `<div>{}</div>`: only the first placeholder is written |

## Left out

- Parsing and code generation are not modelled: the oxc parser, `Components::new`, `add` and `print`, and the AST traversal that finds JSX expressions. The model starts from a parsed `JsxElement` value.
- Arena allocation and the `AstBuilder` are not modelled. Interned atoms are plain strings.
- The `expressions` and `declarations` fields are never read or written by the walk, so the model does not have them.
- `println!` and the element counter `self.i` are left out, because they are output only. `ReconstructAll` returns the lines it would print.
- The empty loop at `lib.rs:79-81` is left out because it has no effect.
- The commented-out code after `lib.rs:108` and the crate's test are left out.
- References to AST nodes become values. An expression is an opaque `ExprHandle`. A component slot holds the `JsxElement` value itself, so identity and aliasing are not modelled.
- Attributes and the closing element are not modelled: process_jsx reads only the opening element's name and its children, so a `JsxElement` holds just those two.
- Which JSX names the parser turns into `Identifier` is not modelled. Any other name (member expressions, namespaced names) is `NonIdentifier`, and the walk skips it.
- Jsx.IsComponentName lower-cases ASCII letters only. Rust's Unicode `to_lowercase` on other letters is not modelled.
- The children of a `Fragment` child are not modelled: the source skips the fragment entirely, and so does the model.
- A `Spread` slot is never created by the walk, because a spread child hits `todo!()` first. `Placeholder` still renders it as `{...}`, as the playback does.
- Jsx.Element.FromJsxElement returns the produced templates and slot lists (or the panic) instead of the `Element` object.
- Jsx.Element.ProcessChildren requires an open frame. Every caller has just pushed one. For that reason, the lazy frame creation for text at `jsx.rs:75-77` is shown to be unreachable and has no separate effect in the model.
- Jsx.Element.ProcessJsx delegates its two branches to `ProcessComponent` and `ProcessNative`. They are one method in the source.
- Jsx.Element.ProcessChildren delegates the body of its loop to `ProcessChild`, which in turn delegates the text and expression branches to `PushText` and `PushExpression`; `ProcessNative` likewise uses `PushOpenTag` and `PushCloseTag`. They are inline code in the source.
- The five `panic!("Lost template")` sites (`jsx.rs:89`, `92`, `113`, `128` and `134`) and the `panic!("Lost a template")` site (`jsx.rs:159`) are shown unreachable: each is an `assert false` in a branch where the stacks are never empty.
- Panics and `todo!()` become a `Fail` outcome that the callers return at once. Unwinding and any partial state it leaves behind are not modelled.
