# VueDataBinding in Dafny

A model of the two-way data binding engine in `script.js`: a miniature of
Vue's reactivity built from `Object.defineProperty` accessors, a
publish/subscribe `Dep` per property, `watcher` objects that render a
property into a text node, and the binding step of the template compiler
(`{{ name }}` interpolation and the `v-model` attribute).

The project has four modules:

- `Wrappers` (`wrappers.dfy`): the `Option` type.
- `Interpolation` (`interpolation.dfy`): the pattern `/\{\{(.*)\}\}/` as the
  JavaScript engine runs it (unanchored, leftmost start, greedy group, `.`
  excluding line terminators), the captured group `RegExp.$1`, and
  `String.prototype.trim` over the ECMAScript whitespace and line terminator
  characters. All pure functions.
- `Dom` (`dom.dfy`): an element's attribute list, with lookup by name and
  `removeAttribute`. Pure functions.
- `Reactivity` (`reactivity.dfy`): the engine instance as a class `Vm`
  whose fields the methods update in place:
  - `data`: `vm.data`, an ordinary mutable object; no method's frame includes it, so the contracts show that no write through an accessor reaches it;
  - `store`: the closure variable `val` of each key's accessor;
  - `plain`: ordinary properties created by writing a key that has no accessor;
  - `subs`: each key's `Dep.subs`, a sequence of watcher ids in push order;
  - `watchers`: every watcher built so far (node, property name, last value read);
  - `target`: the global `Dep.target` slot;
  - `text`, `attrs`, `inputValue`, `listeners`: the `nodeValue` of text nodes,
    the attributes of elements, the `value` of inputs, and each input's
    `input` listener, given as the key it writes.

  A ghost field `updates` logs every call of `watcher.update`, so that the
  contracts can state how many updates a write causes and in which order.

The central invariant `Vm.Valid` says four things:

- the state is well formed (`Vm.Wf`): each observed key has one subscriber
  list, accessor keys and plain properties are disjoint, watchers render only
  into text nodes, text nodes and elements are distinct, each element's
  attribute names are distinct, and listeners sit only on elements;
- every watcher sits exactly once in the subscriber list of the key it reads,
  and in no other list;
- every list entry is a watcher;
- `Dep.target` is empty between operations.

The proofs show that construction, compilation, writes and input events
all preserve it.

The model follows what the code does, not the source's own comments
(the comment at script.js:129 says the listener changes `vue.data`):

- the accessors are defined on `vm`, not on `data`, so writes never reach
  `vm.data` (script.js:39, 65);
- `update` runs with `Dep.target` empty, so subscriber lists only grow while
  a watcher is being constructed, never during a notification;
- the interpolation pattern is unanchored and greedy. `"a {{x}} b {{y}}"`
  therefore binds the single name `x}} b {{y`
  (`Interpolation.TwoInterpolationsBindOneName`);
- an input's `value` is copied from `vm.data` once, at compilation, and is
  not re-synchronised when the property changes.

## Model

| member | source | states |
|---|---|---|
| Interpolation.Lead | script.js:148 | the leading whitespace that `trim` strips: every character before the returned index is whitespace and the one at it is not |
| Interpolation.Trail | script.js:148 | the trailing whitespace that `trim` strips: everything from the returned index on is whitespace and the character before it is not |
| Interpolation.LeadIs | script.js:148 | the leading whitespace is unique: any prefix length with the `Lead` property is `Lead` |
| Interpolation.TrailIs | script.js:148 | the trailing whitespace is unique: any cut point with the `Trail` property is `Trail` |
| Interpolation.Trim | script.js:148 | `trim` yields the infix after the leading whitespace, with nothing but whitespace after it; neither end of the result is whitespace; the result is empty exactly when the input is all whitespace |
| Interpolation.TrimPadded | script.js:148 | padding a trimmed text with whitespace on both sides and trimming gives the text back |
| Interpolation.TrimIdempotent | script.js:148 | trimming twice is trimming once |
| Interpolation.LineEnd | script.js:118 | how far `.*` can reach from a position: no line terminator before the result, and a line terminator or the end of the text at it |
| Interpolation.LastClose | script.js:118 | the greedy group's backtracking finds the last `}}` in range, and every `}}` in range lies at or before it |
| Interpolation.MatchWithinLine | script.js:118 | any match starting at p closes before the first line terminator after its `{{` |
| Interpolation.MatchFrom | script.js:118 | the engine's search finds a match when one exists at or after the start, its start is the leftmost possible, and its group is the longest possible from that start |
| Interpolation.Capture | script.js:146 | `RegExp.$1` is defined exactly when the pattern matches somewhere in the text, and the captured group never spans a line; `Interpolation.CaptureIsLeftmostGreedy` pins down which group it is |
| Interpolation.CaptureIsLeftmostGreedy | script.js:142-146 | the group captured after a successful test is the text between the leftmost `{{` and the last `}}` reachable from it |
| Interpolation.BindingName | script.js:142-148 | a name is bound exactly when the pattern matches somewhere in the text; a bound name has no surrounding whitespace and no line terminator |
| Interpolation.BindingNameIsLeftmostGreedy | script.js:142-148 | the bound name is the trimmed text between the leftmost `{{` and the last `}}` reachable from it on the same line |
| Interpolation.NoMatchNoName | script.js:142 | text the pattern cannot match binds nothing |
| Interpolation.WholeTextMatch | script.js:142-148 | a text that is `{{`, one line, `}}` binds that line, trimmed |
| Interpolation.BindingNameOfTemplate | script.js:142-148 | `{{ name }}` with optional spaces binds exactly `name` |
| Interpolation.TwoInterpolationsMatch | script.js:118 | in `a {{x}} b {{y}}` the leftmost match starts at the first `{{` and its group runs to the last `}}` |
| Interpolation.TwoInterpolationsBindOneName | script.js:142-148 | two interpolations in one text node bind the single name `x}} b {{y` |
| Interpolation.LineBreakDefeatsPattern | script.js:118 | a line break between the braces defeats the pattern, so nothing is bound |
| Dom.GetAttr | script.js:124-126 | the lookup finds a value exactly when some attribute has the name, and the value belongs to an attribute of that name |
| Dom.GetAttrAt | script.js:124-126 | on an element (distinct names), the lookup returns the value of the attribute at the index where the name occurs |
| Dom.RemoveAttr | script.js:135 | `removeAttribute` never lengthens the list; `Dom.RemoveAttrKeeps` and `Dom.RemoveAttrAt` state which attributes remain and in what order |
| Dom.RemoveAttrKeeps | script.js:135 | `removeAttribute` keeps exactly the attributes of other names, so none of the removed name is left |
| Dom.RemoveAttrAbsent | script.js:135 | removing a name the element does not carry changes nothing |
| Dom.RemoveAttrAppend | script.js:135 | removal distributes over concatenation of attribute lists |
| Dom.RemoveAttrUnique | script.js:135 | removal keeps attribute names distinct |
| Dom.RemoveAttrAt | script.js:135 | when only the attribute at index i has the name, removal deletes exactly that index and keeps the order of the rest |
| Dom.OnlyOne | script.js:124 | on an element the attribute of a given name is the only one of that name |
| Reactivity.StrictEquals | script.js:62 | `===` decided case by case (different types are never equal, NaN equals nothing, otherwise the payloads are compared) is exactly equality of values with NaN taken out, and is false whenever either side is NaN |
| Reactivity.TextBinding | script.js:142-148 | a text node's content binds a name exactly when it is a string the pattern matches somewhere; the name is trimmed and on one line |
| Reactivity.ScanAttributes | script.js:121-137 | the loop over the live attribute list, removing `v-model` as it goes, leaves the list without `v-model` in the original order and yields `v-model`'s value as the bound key |
| Reactivity.RegisteredSameNames | script.js:89-96 | registration depends only on the keys watchers read, so `update` changing a watcher's value keeps it |
| Reactivity.RegisterNew | script.js:53-57 | appending a new watcher to the list of the key it reads keeps every watcher registered exactly once |
| Reactivity.NodesOfSnoc | script.js:28-30 | one more subscriber adds exactly its text node to the repainted nodes |
| Reactivity.NotifyAdvance | script.js:28-30 | one more `update` during a notification refreshes exactly one more subscriber with the new value, repaints its node, and appends it to the update log |
| Reactivity.SubscribersRead | script.js:53-57 | every subscriber of a key is a watcher that reads that key |
| Reactivity.SubscribersAreReaders | script.js:53-57 | with exact registration, a key's subscriber list holds exactly the watchers reading it, and their nodes are exactly the nodes bound to the key |
| Reactivity.NotifiedReaders | script.js:27-31 | a notification over a key's subscriber list refreshes exactly the watchers reading the key and repaints exactly their nodes, leaving all others unchanged |
| Reactivity.Vm.Read | script.js:53-59 | the value `vm[k]` yields; right after `new Vue` it agrees with `vm.data[k]` on every key (`Vm.constructor`), after `vm[k] = v` it is `v` (`Vm.Set`), and a write to one key leaves every other key reading as before |
| Reactivity.Vm.RawData | script.js:133 | `vm.data[name]`, `undefined` for a missing key; it agrees with the getter after construction, and neither a write through an accessor (`Vm.Set`) nor an input event (`Vm.OnInput`) changes it, so the accessors are defined on `vm` and not on `data` |
| Reactivity.Vm.constructor | script.js:4-9 | `new Vue`: `vm.data` is the given data, every key is observed with its value and an empty subscriber list, and the invariant holds; every key then reads through the getter as its raw `vm.data` value |
| Reactivity.Vm.Observe | script.js:37-48 | `observer`/`defineReactive`: each key of `data` gets its value as backing value and an empty `Dep`; the invariant holds afterwards |
| Reactivity.Vm.Get | script.js:53-59 | the getter returns the backing value (a plain property, or undefined, for keys without an accessor); with `Dep.target` empty nothing changes; with it set, reading an observed key appends exactly one entry, the occupant, to that key's list and no other, with no deduplication |
| Reactivity.Vm.Update | script.js:89-96 | `update` reads `vm[name]` through the getter, stores it in the watcher and writes it into the watcher's text node, and is logged once |
| Reactivity.Vm.Notify | script.js:27-31 | notification updates every subscriber in list order: exactly the listed watchers now hold the key's value, exactly their nodes show it, no list grows, and the log grows by the list itself |
| Reactivity.Vm.Set | script.js:61-68 | a strictly equal value (NaN never is) changes nothing and runs no update; otherwise a following read returns the new value, every watcher reading the key and every node bound to it take the value, one update per subscriber runs in subscription order, and every other key reads as before; keys without an accessor become plain properties; `vm.data` is never changed |
| Reactivity.Vm.NewWatcher | script.js:75-85 | constructing a watcher appends it once to the list of the key it reads (no list when the key is unobserved), its node then shows the key's current value, `Dep.target` is empty again, and the invariant holds |
| Reactivity.Vm.CompileText | script.js:140-153 | a text node whose content matches the pattern gets exactly one watcher on the bound name; any other text node leaves the state unchanged |
| Reactivity.Vm.CompileModel | script.js:120-138 | at `v-model`, the element's value becomes the raw `vm.data` value of the bound key and its listener is recorded; the attribute is removed; no watcher, subscriber list or text changes |
| Reactivity.Vm.Compile | script.js:116-155 | elements take the `v-model` branch, text nodes the interpolation branch, any other node is left alone |
| Reactivity.Vm.OnInput | script.js:128-131 | an `input` event sets the element's value and, when the element was bound by `v-model`, is exactly the write `vm[name] = value`; `vm.data` is never changed, although the comment at script.js:129 says otherwise |

## Left out

- Mounting is not modelled: `document.querySelector`, `createDocumentFragment`, `appendChild` and the child-moving loop of `nodeToFragment` (script.js:12-14, 102-111). Nodes are abstract ids, and `Vm.Compile` takes one node at a time. `compile` does not recurse, so only direct children of the mount point would ever be compiled.
- `console.log(options)` (script.js:7) is output only.
- `Object.defineProperty` and `addEventListener` are not modelled as mechanisms. The accessors are the methods `Vm.Get` and `Vm.Set`. A listener is the key it writes, and the browser event is the method `Vm.OnInput`.
- Only this one regular expression is modelled, not a general engine. `RegExp.$1` becomes the function `Interpolation.Capture`.
- There is no JavaScript type coercion. Writing into `nodeValue` or `value` stores the value itself, not its string form. A missing key's `undefined` is the value `Undefined`.
- Numbers are the integers and NaN; other floating-point numbers are not modelled.
- Reactivity.TextBinding: content that is not a string binds nothing. This is exact for the string forms of undefined, null, booleans, integers and NaN, none of which contains `{{`.
- Keys that collide with properties `vm` already has (its own `data`, or inherited ones such as `constructor`) are not modelled. Writes to unobserved keys create plain properties.
- Reactivity.Vm.RawData: keys that `vm.data` inherits are not modelled. `v-model="toString"` would copy `Object.prototype.toString` into the element, whereas `RawData` gives `Undefined`.
- Reactivity.Vm.OnInput: events are modelled only on the bound element itself, and its value is taken to be the typed string. `input` events bubble, so the listener at script.js:128-130 would also run for an event from a descendant, writing that descendant's `value`; this is not modelled.
- Strings are sequences of Unicode scalar values, while JavaScript strings are sequences of UTF-16 code units. Every character the pattern and `trim` test lies in the Basic Multilingual Plane, so the results agree on well-formed text, but a lone surrogate cannot be represented.
- `Object.keys` order is not modelled: `Vm.Observe` defines the accessors in any order, and the result is the same.
- Watcher objects' `vm`, `node` and `name` fields are not modelled as object fields. A watcher is an index into `Vm.watchers`.
