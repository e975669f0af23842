# Breakpoint engine of a Lua debugger, modelled in Dafny

This project models the breakpoint engine of the debugger in
`src/debugger/breakpoint.cpp`: the object `breakpoint`, which keeps breakpoints
per source and decides, on every line the Lua VM executes, whether to pause.

- **Source registry.** `files_` holds line tables of file-backed sources by
  client path. `memorys_` holds tables of anonymous chunks by numeric source
  reference. A table maps a line to a `bp` record: condition, hit condition,
  log template and hit counter.
- **Presence index.** `fast_table_` is a dense counter array over lines. Slot
  `l` counts the source tables with an entry at `l`. It lets `has` reject a
  line without a table lookup.
- **Hit decision.** `has` runs the fast reject, the exact lookup, the condition,
  the counter increment, the hit condition and the logpoint, in that order.
- **Log templates.** `evaluate_log` replaces each `{...}` span by the
  stringified value of its inner text.
- **Resolution cache.** `get_function` remembers, per function identity,
  which table governs the function.

The model is laid out in layers:

- `numerals.dfy`: `std::to_string` of the counter, and its inverse.
- `evaluation.dfy`: the Lua evaluator as an oracle from script text to
  `Failed | Returned(values)`, plus `evaluate_isok` and `evaluate_getstr`.
- `template.dfy`: the regex match, a recursive rendering function, and the
  loop of `evaluate_log`, proved equal to it.
- `descriptor.dfy`: the `bp` record, `bp::bp`, and the pure hit decision `Decide`.
- `registry.dfy`: the two maps and the counter array as values, the
  presence-index invariant `Indexed`, and the lemmas each mutation needs.
- `resolution.dfy`: the `bp_function` constructor as the pure function `Resolve`.
- `breakpoint.dfy`: the class `Breakpoint`. Its fields are the two maps, the
  counter `array`, the cache map and a ghost output log. Its methods are proved
  against the functions above. `Valid()` (the presence-index invariant) is
  kept by every operation of `breakpoint`. The helpers `Store`, `DropLines`
  and `Grow` are intermediate steps of `AddTo` and `ClearSource`: they neither
  require nor ensure it, and `Store` and `DropLines` break it until the step
  that follows them.

Collaborators are parameters:

- the evaluator is an `Evaluator` function, applied to the full script text
  (`"return " + s`, `"return tostring(" + s + ")"`);
- the path converter is a partial function `string -> Option<string>`;
- what `lua_getinfo` reports for a frame is a `Frame` value;
- output sent to the "stdout" channel is appended to the ghost sequence `output`.

In these places the code does something other than one might expect; the model follows the code:

- A per-source `clear` leaves the source registered with an empty table. It
  does not drop the table.
- A failing `{...}` expression renders as the empty string, not as an error
  description.
- The trailing line break is added when a breakpoint is stored (`bp::bp`), not
  when a template is rendered.
- The global `clear()` does not clear the resolution cache. So after it, a
  cached binding can name a source that has no table any more; in the source
  that is a dangling reference to a destroyed table. `StaleBindingAfterClear` exhibits
  this. `Has` accepts any key; an unregistered one reads as an empty table,
  which is what the source does on a stale binding as long as the fast reject
  answers first.

## Model

| member | source | states |
|---|---|---|
| Numerals.Decimal | src/debugger/breakpoint.cpp:190 | `std::to_string` of the non-negative counter: a non-empty digit string without a leading zero |
| Numerals.ParseDecimalOfDecimal | src/debugger/breakpoint.cpp:190 | reading back the decimal spelling of a counter gives the counter |
| Numerals.DecimalInjective | src/debugger/breakpoint.cpp:190 | distinct counters give distinct hit-condition prefixes |
| Evaluation.IsOk | src/debugger/breakpoint.cpp:9-24 | true exactly when `return <script>` evaluates and its first result is the boolean true; failures, no result and truthy non-booleans give false |
| Evaluation.ToLString | src/debugger/breakpoint.cpp:40 | `lua_tolstring`: a string as itself, an integer as its decimal spelling, every other kind as the empty string |
| Evaluation.GetStr | src/debugger/breakpoint.cpp:26-43 | `return tostring(<script>)`: the first result as `lua_tolstring` sees it, empty on failure or no result |
| Template.FirstMatch | src/debugger/breakpoint.cpp:49-52 | `regex_search` for `\{[^\}]*\}`: a found span has its `{` before its `}`, both inside the template (its meaning is in FirstMatchFound and FirstMatchNone) |
| Template.FirstMatchFound | src/debugger/breakpoint.cpp:49-52 | the search result is a match of `\{[^\}]*\}` that starts at the first `{` |
| Template.FirstMatchNone | src/debugger/breakpoint.cpp:52 | the search finds nothing exactly when the template holds no match |
| Template.FirstMatchIsLeftmost | src/debugger/breakpoint.cpp:49-52 | a match starting at the first `{` is the one found |
| Template.FirstMatchAfterLiteral | src/debugger/breakpoint.cpp:52 | literal text without `{` in front shifts the found match and changes nothing else |
| Template.Render | src/debugger/breakpoint.cpp:45-62 | the meaning of `evaluate_log`: the text before each leftmost match copied, the match replaced by the substitution of its inner text; its properties are the Render lemmas below |
| Template.RenderWithoutMatch | src/debugger/breakpoint.cpp:52-56 | a template with no match renders unchanged |
| Template.RenderUnclosed | src/debugger/breakpoint.cpp:49-56 | a template with no `}` renders unchanged, so an unclosed `{` stays literal |
| Template.RenderLiteralPrefix | src/debugger/breakpoint.cpp:52-56 | literal text without `{` is copied verbatim and in order |
| Template.RenderHole | src/debugger/breakpoint.cpp:53-54 | `{e}`, with no `}` in `e`, becomes the substitution of `e`, and the rest renders on |
| Template.RenderIdentity | src/debugger/breakpoint.cpp:52-56 | substituting each match by itself gives back the template: nothing outside matches is lost or moved |
| Template.LogStep | src/debugger/breakpoint.cpp:52-55 | one turn of the loop: appending the text before the match and its value keeps "output so far + rendering of the rest = whole rendering" |
| Template.EvaluateLog | src/debugger/breakpoint.cpp:45-62 | the loop over successive matches yields the rendering with the stringified value of each inner text |
| Descriptor.MakeBp | src/debugger/breakpoint.cpp:64-79 | absent members read as empty; a present log message is stored with `"\n"` appended, so it is never empty; the counter is the one given |
| Descriptor.Decide | src/debugger/breakpoint.cpp:184-200 | the counter grows by one exactly when the condition holds; pause exactly when the condition, the hit condition on the new count and "not a logpoint" all hold; a logpoint never pauses and emits exactly one rendered text when both gates pass |
| Descriptor.ReplayAt | src/debugger/breakpoint.cpp:185-190 | with no condition, the k-th successive call decides on the breakpoint with its counter advanced by k |
| Descriptor.ReplayWithoutCondition | src/debugger/breakpoint.cpp:185-200 | with no condition, the k-th successive call sees count `hit + k + 1` and pauses, or logs, exactly when the hit condition holds for that count |
| Descriptor.ReplayFailingCondition | src/debugger/breakpoint.cpp:185-188 | calls whose condition fails never pause, never count and never log |
| Registry.Register | src/debugger/breakpoint.cpp:203-211 | `get_bp` makes the key registered without changing its table or any other source |
| Registry.Upsert | src/debugger/breakpoint.cpp:152-161 | a present line takes the new fields and keeps its counter; a new line starts at 0; other lines are untouched |
| Registry.Grown | src/debugger/breakpoint.cpp:162-168 | growth to exactly `line + 1` slots when `line` has no slot; old slots kept, new ones zero |
| Registry.Bumped | src/debugger/breakpoint.cpp:169 | slot `line` up by exactly one, every other slot unchanged |
| Registry.Dropped | src/debugger/breakpoint.cpp:135-138 | each slot of the cleared lines down by exactly one, every other slot unchanged |
| Registry.CountPut | src/debugger/breakpoint.cpp:133-169 | replacing one table changes the number of tables holding a line by what that table gains or loses there |
| Registry.PresentLineHasPositiveSlot | src/debugger/breakpoint.cpp:172-183 | under the invariant, a line present in a table has a positive slot, so the fast reject never hides a breakpoint |
| Registry.InsertKeepsIndexed | src/debugger/breakpoint.cpp:161-169 | inserting a new line, growing and bumping the index keeps "slot = number of tables with that line" |
| Registry.ReplaceKeepsIndexed | src/debugger/breakpoint.cpp:152-159 | overwriting an existing line keeps the invariant with the index unchanged |
| Registry.ClearKeepsIndexed | src/debugger/breakpoint.cpp:133-140 | decrementing each line once and emptying the table keeps the invariant |
| Registry.RegisterKeepsIndexed | src/debugger/breakpoint.cpp:203-211 | creating an empty table keeps the invariant |
| Registry.EmptyIndexed | src/debugger/breakpoint.cpp:100-113 | no sources and an all-zero index, possibly empty, satisfy the invariant |
| Resolution.Resolve | src/debugger/breakpoint.cpp:81-98 | `@`/`=` sources bind to the converted path exactly when conversion succeeds; other sources bind to the reference that is the source's address; a failed `lua_getinfo` binds to nothing |
| Breakpoints.Breakpoint.constructor | src/debugger/breakpoint.cpp:100-106 | no sources, an empty cache and a zero-filled index |
| Breakpoints.Breakpoint.Clear | src/debugger/breakpoint.cpp:108-113 | both maps and the index emptied, the cache kept, invariant kept |
| Breakpoints.Breakpoint.GetBpPath | src/debugger/breakpoint.cpp:203-206 | the path's table, created empty if absent; nothing else changes |
| Breakpoints.Breakpoint.GetBpRef | src/debugger/breakpoint.cpp:208-211 | the reference's table, created empty if absent; nothing else changes |
| Breakpoints.Breakpoint.DropLines | src/debugger/breakpoint.cpp:135-138 | each slot named by a table line down by exactly one, every other slot unchanged |
| Breakpoints.Breakpoint.ClearSource | src/debugger/breakpoint.cpp:133-140 | every line's slot down by exactly one, the table empty but still registered, other sources untouched, invariant kept |
| Breakpoints.Breakpoint.ClearPath | src/debugger/breakpoint.cpp:115-122 | a registered path as in ClearSource; an unknown path changes nothing and creates no table |
| Breakpoints.Breakpoint.ClearRef | src/debugger/breakpoint.cpp:124-131 | a registered reference as in ClearSource; an unknown reference changes nothing and creates no table |
| Breakpoints.Breakpoint.Grow | src/debugger/breakpoint.cpp:162-168 | a fresh index of exactly `line + 1` slots: the old slots copied, the new ones zero; nothing else changes |
| Breakpoints.Breakpoint.AddTo | src/debugger/breakpoint.cpp:152-170 | the table becomes Upsert of the old one; a present line leaves the index alone; a new line grows and bumps it; invariant kept |
| Breakpoints.Breakpoint.AddPath | src/debugger/breakpoint.cpp:142-145 | AddTo on the path's table, created if needed |
| Breakpoints.Breakpoint.AddRef | src/debugger/breakpoint.cpp:147-150 | AddTo on the reference's table, created if needed |
| Breakpoints.Breakpoint.Has | src/debugger/breakpoint.cpp:172-201 | a line with no slot or a zero slot gives false with nothing changed; a line missing from this source's table gives false even when another source fills the slot; otherwise the verdict, new counter and output of Decide |
| Breakpoints.Breakpoint.NewBpFunction | src/debugger/breakpoint.cpp:81-98 | the binding is Resolve of the frame's source, and the table it binds to exists afterwards |
| Breakpoints.Breakpoint.GetFunction | src/debugger/breakpoint.cpp:213-226 | None when the function cannot be identified; a cached identity is answered from the cache without resolving or touching the registry; a new identity is resolved once and cached even without a table; None whenever the binding has no table |
| Breakpoints.StaleBindingAfterClear | src/debugger/breakpoint.cpp:108-113 | after the global clear, the cache still hands out a binding whose source has no table |

## Left out

- The Lua VM stack (`lua_pop`, the stack slots of results) is not modelled. `evaluate`, `lua_getinfo`, `lua_topointer` and `lua_tolstring` are oracles given as parameters.
- `evaluate` itself, from `debugger/evaluate.h`, is not part of this model. It is the `Evaluator` parameter.
- Evaluation.GetStr: `lua_tolstring` is modelled for strings and integers only. Lua's float formatting is not modelled, and every other kind gives the empty string.
- The `std::regex` engine is replaced by its meaning for this one pattern. The exception path (`catch`, returning `e.what()`) is not modelled.
- The rapidjson descriptor is a record of three optional strings. A member that is present but not a string is not modelled.
- `dbg_->output` is the ghost log `output`. Its channel name "stdout" and the `L`/`ar` arguments are not recorded.
- `get_pathconvert` is not modelled; the path converter is the `PathConvert` parameter.
- Bindings name a source by key, not by a `bp_source*` address, so the lifetime of a table is not modelled.
- Breakpoints.Breakpoint.Has: a binding cached before `clear()` whose key a later `add` registers again reads the new table here, while in the source it still points to the destroyed one (a use after free); a stale binding whose line passes the fast reject reads an empty table here, where the source reads freed memory.
- Evaluation is side-effect free within a call: the `Evaluator` is one pure function per `Has` call, so the same script text gives the same result each time (for example in `{f()}{f()}`), and a condition or `{...}` expression that changes Lua state is not seen by later evaluations. The source evaluates against live VM state.
- `functions_` is a map. The eviction of the LRU-like container is not modelled, so a cached entry is never re-resolved.
- The hit counter is an unbounded `nat`. The overflow of the C++ `int` after 2^31 - 1 increments, which is undefined behaviour, is not modelled. The index slots are unbounded `int`s.
- Thread safety is not modelled; the source has no concurrency.
