# stilts template front end, modelled in Dafny

stilts compiles Jinja-like templates into Rust code at build time. This
project models the core of its front end and proves properties of that model:

- **Source windows.** The model covers both cursor types.
  - `Locate` covers `stilts-lang/src/locate.rs`: a copyable window with `try_slice`, `slice`, `join` and `spanned`, plus byte offset and length.
  - `LocatedStream` covers `stilts-lang/src/located.rs`: a stream cursor whose `start` moves in place. `next_token`, `next_slice` and `reset` are methods of the class `Cursor`.
- **Failure flow.** `Errors` covers `stilts-lang/src/error.rs`.
  - The three-way `ErrFlow` is `Backtrack`, `Unrecoverable` or `Incomplete`, with its maps.
  - The `Error` builders are modelled as functional updates.
  - The two counting loops are `get_line_col` and `get_offset`. They are methods proved against specification functions.
- **Parser combinators.** `Parse` covers `stilts-lang/src/parse.rs`.
  - A parser is a function from a window to `Ok(rest, value)` or `Err(flow)`.
  - `tag`, `whitespace0`, `whitespace1`, `anychar`, `eof`, `map`, `and_then` and `alt` are functions.
  - `many_until`, `many_till`, `take_until` and `take_till` are methods with their `while` loops. Each is proved equal to a recursive definition, and the properties are proved about that definition. The repository's parser tests appear as lemmas about the definitions.
- **Syntax tree.** `Types` covers `stilts-lang/src/types.rs`: the recursive `Item` tree and every `into_owned`, which is proved to be a structure-preserving copy that is idempotent.
- **Parser state.** `State` covers `stilts-lang/src/state.rs`: the bit flags, their default, and the shared delimiter container.
- **Inheritance resolver.** `Expand` covers `stilts-macros/src/expand.rs`.
  - `Graph::load` builds the `extends` chain from a map of readable, already parsed files, with cycle detection and the final reversal.
  - `get_blocks` is the block registry.
  - Navigation covers `parent`, `child` and `deepest_child`.
  - `super()` substitution and the skipping of blocks already emitted are modelled.
  - `Graph::expand`'s loop produces a sequence of abstract output fragments.

`Unicode` holds the character facts the crate takes from Rust's standard
library: `char::is_whitespace`, UTF-8 widths and `str::trim`. `Wrappers` holds
`Option` and `Result`.

All positions are character indices into a `string` (`seq<char>`), and byte
quantities are sums of UTF-8 widths (see "Left out").

## Model

| member | source | states |
|---|---|---|
| State.DelimContainer.constructor | stilts-lang/src/state.rs:31-34 | the container holds exactly the given open and close strings |
| State.NewDelims | stilts-lang/src/state.rs:15-28 | `Delims::new(o, c)` builds a fresh container whose `open()` is `o` and `close()` is `c` |
| State.DefaultDelims | stilts-lang/src/state.rs:36-43 | the default delimiters are `{%` and `%}` |
| State.CloneSharesContainer | stilts-lang/src/state.rs:11-12 | a clone shares the `Rc` container and so reports the same open and close strings |
| State.FlagsAreDistinctBits | stilts-lang/src/state.rs:45-52 | `ALLOW_BLOCK`, `ALLOW_EXTEND` and `ALLOW_SUPERCALL` are single bits, pairwise disjoint |
| State.DefaultFlags | stilts-lang/src/state.rs:54-58 | the default state allows blocks and `extends`, does not allow `super()`, and sets no other bit |
| Locate.New | stilts-lang/src/locate.rs:23-29 | a new window spans the whole input: offset 0, end at its length, `spanned` is the input |
| Locate.Spanned | stilts-lang/src/locate.rs:115-118 | `spanned` is the text inside the window; `SpannedPartitions` states its properties |
| Locate.SpannedPartitions | stilts-lang/src/locate.rs:115-118 | the window's text has the window's length, and the text before it, it and the text after it make up the whole text |
| Locate.TrySliceAsWritten | stilts-lang/src/locate.rs:64-87 | as written: `None` exactly when `offset + start` or `offset + end` passes `end_offset`; a result stays inside the parent |
| Locate.TrySliceAsWrittenInverted | stilts-lang/src/locate.rs:64-87 | `try_slice(3..1)` on `"abcd"` succeeds with a window whose start passes its end |
| Locate.TrySlice | stilts-lang/src/locate.rs:64-87 | corrected: `None` exactly when the range is inverted or its end passes `end_offset`; otherwise the window is `[offset + start, offset + end)` of the same text, with inclusive/exclusive bounds adjusted, and its text is that slice of the parent's |
| Locate.TrySliceAgrees | stilts-lang/src/locate.rs:64-87 | on a range that is not inverted, the as-written and the corrected `try_slice` agree |
| Locate.Slice | stilts-lang/src/locate.rs:111-113 | `slice` as the corrected `TrySlice` unwrapped: a window of the same text inside the parent, spanning the requested characters; its requires excludes an inverted range, which the source's `slice` accepts and turns into an inverted window (see Findings) |
| Locate.SplitPartitions | stilts-lang/src/locate.rs:111-118 | slicing `..k` and `k..` succeed, meet at one offset, and their texts concatenate to the window's text |
| Locate.SliceCompose | stilts-lang/src/locate.rs:64-87 | a slice of a slice is the slice at the summed offsets |
| Locate.LocatedSliceExample | stilts-lang/src/parse.rs:346-373 | the repository's `located_slice` test: `"this"`, `"text"`, `"ex"` at offset 6, the tail and the head |
| Locate.Join | stilts-lang/src/locate.rs:96-105 | `join` starts at the first window's offset and ends at the second's end; it fails iff the two texts differ |
| Locate.JoinAdjacent | stilts-lang/src/locate.rs:96-105 | joining adjacent windows gives a valid window whose text is the concatenation |
| Locate.Span | stilts-lang/src/locate.rs:58-60 | the source span is the byte offset and the byte length |
| Locate.ByteOffset | stilts-lang/src/locate.rs:36-44 | the UTF-8 size of the characters before the window, between one and four bytes per character |
| Locate.ByteLen | stilts-lang/src/locate.rs:46-55 | the UTF-8 size of the characters inside the window, between one and four bytes per character |
| Locate.ByteOffsetPlusLen | stilts-lang/src/locate.rs:39-55 | byte offset plus byte length is the UTF-8 length of the text up to `end_offset`; the byte length is between one and four times the character length |
| Locate.ByteViewOnAscii | stilts-lang/src/locate.rs:39-55 | on ASCII text the byte offset and byte length equal the character offset and length |
| LocatedStream.New | stilts-lang/src/located.rs:15-21 | a new cursor starts at 0 and ends at the input's length; its content is the whole input |
| LocatedStream.Content | stilts-lang/src/located.rs:34-36 | the content has the window's length, and the text before it, the content and the text after it make up the whole source |
| LocatedStream.Here | stilts-lang/src/located.rs:23-28 | `here` is an empty window at `start` over the same source |
| LocatedStream.SpanOf | stilts-lang/src/located.rs:30-32 | the span is an ordered pair whose width is the content's length |
| LocatedStream.EofOffset | stilts-lang/src/located.rs:53-55 | `eof_offset` is the length of the content |
| LocatedStream.OffsetFrom | stilts-lang/src/located.rs:106-116 | `offset_from(origin)` is how far the cursor's `location()` lies past the origin's |
| LocatedStream.Equal | stilts-lang/src/located.rs:172-176 | `eq` holds when both cursors point at the same source object and have equal content; `EqualIsEquivalence`, `EqualNeedsSameSource` and `EqualIgnoresPosition` state its properties |
| LocatedStream.OffsetFromConsumed | stilts-lang/src/located.rs:106-110 | a cursor that moved forward over the same source has consumed `offset_from` characters: the origin's content is those characters followed by the cursor's content |
| LocatedStream.EqualIsEquivalence | stilts-lang/src/located.rs:172-176 | equality is reflexive, symmetric and transitive |
| LocatedStream.EqualNeedsSameSource | stilts-lang/src/located.rs:172-176 | windows over different source objects are never equal, whatever their text |
| LocatedStream.EqualIgnoresPosition | stilts-lang/src/located.rs:172-176 | over one source holding `"abab"`, the windows `[0, 2)` and `[2, 4)` are equal although they sit at different positions |
| LocatedStream.Cursor.constructor | stilts-lang/src/located.rs:15-21 | the cursor starts as `Located::new` of its source |
| LocatedStream.Cursor.NextToken | stilts-lang/src/located.rs:57-61 | on an empty window it returns `None` without moving; otherwise it returns the first character and moves `start` by one; `end` and the source do not change |
| LocatedStream.Cursor.NextSlice | stilts-lang/src/located.rs:74-81 | returns `[start, start + n)` and moves `start` by `n`; the slice ends where the cursor now starts, and slice plus remainder is the old content |
| LocatedStream.Cursor.Checkpoint | stilts-lang/src/located.rs:83-85 | a checkpoint is the cursor's current value |
| LocatedStream.Cursor.Reset | stilts-lang/src/located.rs:87-89 | after `reset` the cursor is the checkpoint |
| LocatedStream.ResetRestores | stilts-lang/src/located.rs:83-89 | moving, then resetting to a checkpoint taken before, restores the cursor |
| Errors.WithClass | stilts-lang/src/error.rs:41-48 | building a flow from a class and an error yields that class and that error |
| Errors.ClassOf | stilts-lang/src/error.rs:40-48 | the class of a flow: backtrack, unrecoverable or incomplete; `WithClass` and `FlowDeterminedByClassAndError` state what it determines |
| Errors.IntoErr | stilts-lang/src/error.rs:50-56 | `into_err` is the error inside whatever the class; `WithClass`, `ToBacktrack` and `ToUnrecoverable` are stated through it |
| Errors.FlowDeterminedByClassAndError | stilts-lang/src/error.rs:41-56 | a flow is determined by its class and its inner error |
| Errors.ToBacktrack | stilts-lang/src/error.rs:59-62 | `to_backtrack` yields `Backtrack` with the same inner error |
| Errors.ToUnrecoverable | stilts-lang/src/error.rs:64-66 | `to_unrecoverable` yields `Unrecoverable` with the same inner error |
| Errors.Map | stilts-lang/src/error.rs:69-78 | `map` keeps the class and applies `f` to the inner error |
| Errors.MapIncomplete | stilts-lang/src/error.rs:81-89 | `map_incomplete` keeps the class, applies `f` only to `Incomplete`, and leaves the other two unchanged |
| Errors.NewError | stilts-lang/src/error.rs:157-164 | a new error has the message, label `"here"`, no span and empty source |
| Errors.WithMsg | stilts-lang/src/error.rs:167-170 | `msg` replaces the message and nothing else |
| Errors.WithLabel | stilts-lang/src/error.rs:173-176 | `label` replaces the label and nothing else |
| Errors.WithSpan | stilts-lang/src/error.rs:179-183 | `span` records the window's byte span and the full source text, keeping message and label |
| Errors.FlowMsg | stilts-lang/src/error.rs:94-97 | a flow's `msg` keeps the class and sets the inner error's message |
| Errors.FlowLabel | stilts-lang/src/error.rs:99-102 | a flow's `label` keeps the class and sets the inner error's label |
| Errors.FlowSpan | stilts-lang/src/error.rs:104-106 | a flow's `span` keeps the class and sets the inner error's span |
| Errors.MapErrIncomplete | stilts-lang/src/error.rs:120-128 | `Ok` passes through untouched; an error has `map_incomplete` applied to its flow |
| Errors.ResultWithMsg | stilts-lang/src/error.rs:130-132 | `Ok` passes through; an error's flow gets the message |
| Errors.ResultWithLabel | stilts-lang/src/error.rs:134-136 | `Ok` passes through; an error's flow gets the label |
| Errors.ResultWithSpan | stilts-lang/src/error.rs:138-140 | `Ok` passes through; an error's flow gets the span |
| Errors.CharsBefore | stilts-lang/src/error.rs:245-265 | the number of characters the loop visits: every earlier character starts before `offset`, and the one it stops at starts at or after it |
| Errors.GetLineCol | stilts-lang/src/error.rs:245-265 | the loop computes the line and column of the first character at or past the byte offset |
| Errors.LineColOnAscii | stilts-lang/src/error.rs:245-265 | on ASCII text `get_line_col` gives one plus the newlines before `offset`, and the characters since the last of them |
| Errors.ColumnAfterNewline | stilts-lang/src/error.rs:253-258 | a newline starts a new line and resets the column to the characters after it |
| Errors.LinesMonotone | stilts-lang/src/error.rs:253-258 | the line count never decreases along the text; on the same line the column grows by one per character |
| Errors.StopAt | stilts-lang/src/error.rs:268-288 | the index where `get_offset` stops: the first character whose position reaches the target |
| Errors.GetOffset | stilts-lang/src/error.rs:268-288 | the loop returns the byte offset of the first character whose (line, column) reaches the target, or the total byte length |
| Errors.OffsetOfLineCol | stilts-lang/src/error.rs:245-288 | `get_offset` given the line `get_line_col` reports for a character's byte offset, and its column plus one, gives that byte offset back: `get_line_col` counts columns from 0, `get_offset` from 1 |
| Errors.DisplaySimple | stilts-lang/src/error.rs:199-214 | with no span the display is just the message; with a span it is the message with the line and column `get_line_col` gives for the span's byte offset |
| Errors.FirstNewline | stilts-lang/src/error.rs:199-214 | the end of the line that holds the span: the first newline at or after the start, with no newline before it, or the end of the text |
| Errors.Lines | stilts-lang/src/error.rs:199-214 | `str::lines` as `display_simple` uses it: no line holds a newline, and only the empty text has no lines |
| Errors.LinesCarriageReturn | stilts-lang/src/error.rs:199-214 | `str::lines` removes a `\r\n` ending whole but keeps a bare `\r` at the end of the last line |
| Parse.Here | stilts-lang/src/parse.rs:131-133 | the empty window at the input's start, used as an error span |
| Parse.Drop | stilts-lang/src/locate.rs:111-118 | `slice(k..)`: the same text from offset `k` on |
| Parse.Take | stilts-lang/src/locate.rs:111-118 | `slice(..k)`: the first `k` characters |
| Parse.RunParser | stilts-lang/src/parse.rs:19-25 | `parse` succeeds iff the parser does, with its value, and reports the inner error of a failure |
| Parse.MapValue | stilts-lang/src/parse.rs:68-73 | `map` keeps the remainder, applies `f` to the value and passes errors through |
| Parse.AndThen | stilts-lang/src/parse.rs:89-94 | `and_then` feeds the first parser's remainder and value to the second and passes errors through |
| Parse.AndThenSuffix | stilts-lang/src/parse.rs:89-94 | chaining two parsers that only move forward only moves forward |
| Parse.Tag | stilts-lang/src/parse.rs:121-136 | succeeds iff the input starts with the pattern, returning that prefix and the rest; too short is `Incomplete` "unexpected eof"; a differing prefix is `Backtrack` |
| Parse.TagExample | stilts-lang/src/parse.rs:376-382 | `tag("my")` on `"my input"` returns `"my"` and leaves `" input"` |
| Parse.TagMismatch | stilts-lang/src/parse.rs:121-136 | `tag` backtracks when the first character differs from the pattern's |
| Parse.TagMatch | stilts-lang/src/parse.rs:121-136 | `tag` succeeds wherever each of the pattern's characters is in place |
| Parse.Whitespace0AsWritten | stilts-lang/src/parse.rs:139-149 | as written: never fails; skips the leading whitespace, but skips nothing when no non-whitespace character follows |
| Parse.Whitespace0AsWrittenKeepsAllWhitespace | stilts-lang/src/parse.rs:139-149 | as written, `whitespace0("  ")` leaves both spaces |
| Parse.Whitespace0 | stilts-lang/src/parse.rs:139-149 | corrected: never fails, consumes only whitespace, and stops at a non-whitespace character or the end |
| Parse.Whitespace0Agrees | stilts-lang/src/parse.rs:139-149 | the two agree unless the input is non-empty and all whitespace |
| Parse.Whitespace0Examples | stilts-lang/src/parse.rs:385-393 | `"  s"` and `"s"` both leave `"s"` |
| Parse.Whitespace1 | stilts-lang/src/parse.rs:152-163 | succeeds iff the input starts with whitespace, then consumes all leading whitespace; otherwise `Backtrack` "expected whitespace" |
| Parse.Whitespace1Skips | stilts-lang/src/parse.rs:397-400 | `"   s"` leaves `"s"` |
| Parse.Whitespace1Rejects | stilts-lang/src/parse.rs:401-403 | `"s "` fails |
| Parse.Whitespace1Consumes | stilts-lang/src/parse.rs:405-407 | `" "` leaves `""` |
| Parse.AnyChar | stilts-lang/src/parse.rs:166-175 | succeeds iff the input is not empty, returning its first character and the rest; else `Incomplete` "unexpected eof" |
| Parse.AnyCharExample | stilts-lang/src/parse.rs:411-417 | `anychar("abcdef")` returns `'a'` and leaves `"bcdef"` |
| Parse.Eof | stilts-lang/src/parse.rs:178-184 | succeeds without consuming iff the input is empty; else `Backtrack` "not eof" |
| Parse.PrimitivesAreSuffixParsers | stilts-lang/src/parse.rs:121-184 | every primitive's remainder is a suffix of its input |
| Parse.Alt | stilts-lang/src/parse.rs:290-322 | returns the result of the first alternative that does not backtrack, all earlier ones having backtracked, or the last alternative's result as is |
| Parse.AltSuffix | stilts-lang/src/parse.rs:290-322 | `alt` over parsers that only move forward only moves forward |
| Parse.ManyUntil | stilts-lang/src/parse.rs:188-214 | the loop computes the recursive definition of `many_until` |
| Parse.ManyUntilFrom | stilts-lang/src/parse.rs:188-214 | the recursive definition of `many_until`'s loop from the current part; `ManyUntilStops`, `ManyUntilTrace`, `ManyUntilImmediate` and `ManyLoopFailures` state its properties |
| Parse.ManyUntilStops | stilts-lang/src/parse.rs:188-214 | on success `g` matches where it stopped, the remainder is a suffix, the items extend those given, and there are no more new items than characters consumed |
| Parse.ManyUntilTrace | stilts-lang/src/parse.rs:193-210 | on success there is a run of windows from the input to the remainder: at each but the last `g` backtracks and `f` succeeds, moving strictly forward to the next window, and its values are exactly the new items, in order; `g` succeeds at the last |
| Parse.ManyUntilImmediate | stilts-lang/src/parse.rs:188-214 | when `g` matches at once, nothing is collected or consumed |
| Parse.ManyLoopFailures | stilts-lang/src/parse.rs:195-246 | in both loops an error of `g` other than a backtrack is returned as is, so is an error of `f`, and a step of `f` that does not move fails with the "infinite loop" backtrack (`many_till` pointing at the current position) |
| Parse.ManyTill | stilts-lang/src/parse.rs:219-246 | the loop computes the recursive definition of `many_till` |
| Parse.ManyTillFrom | stilts-lang/src/parse.rs:219-246 | the recursive definition of `many_till`'s loop; `ManyTillIsManyUntilThenG` relates it to `many_until` |
| Parse.ManyTillIsManyUntilThenG | stilts-lang/src/parse.rs:188-246 | `many_till` succeeds iff `many_until` does, with the same items, and then consumes `g`'s match and returns its value |
| Parse.TakeUntil | stilts-lang/src/parse.rs:249-267 | the loop computes the recursive definition of `take_until` |
| Parse.TakeUntilFrom | stilts-lang/src/parse.rs:249-267 | the recursive definition of `take_until`'s scan; `TakeUntilFirstMatch`, `TakeUntilNoMatch` and `TakeUntilFindsFirst` state its properties |
| Parse.TakeTill | stilts-lang/src/parse.rs:270-287 | the loop computes the recursive definition of `take_till` |
| Parse.TakeTillFrom | stilts-lang/src/parse.rs:270-287 | the recursive definition of `take_till`'s scan; `TakeTillIsTakeUntilThenPat` relates it to `take_until` |
| Parse.TakeUntilFirstMatch | stilts-lang/src/parse.rs:249-267 | on success the taken prefix and the remainder make up the input, the pattern matches the remainder, and it backtracked at every earlier position |
| Parse.TakeUntilNoMatch | stilts-lang/src/parse.rs:249-267 | when the pattern backtracks everywhere, the result is `Incomplete` "unexpected eof" at the end of the input |
| Parse.TakeUntilPropagates | stilts-lang/src/parse.rs:254-285 | where `pat` first fails without backtracking, `take_until` and `take_till` both return that failure |
| Parse.TakeTillIsTakeUntilThenPat | stilts-lang/src/parse.rs:249-287 | `take_till` succeeds iff `take_until` does, with the same prefix, then consumes the match; failures agree |
| Parse.TakeUntilFindsFirst | stilts-lang/src/parse.rs:249-287 | where the pattern first matches at `k`, `take_until` splits at `k` and `take_till` also returns the match |
| Parse.ManyUntilAnyChar | stilts-lang/src/parse.rs:188-246 | `many_until(anychar, g)` where `g` first matches at `k` collects the first `k` characters |
| Parse.TakeUntilExampleD | stilts-lang/src/parse.rs:420-444 | on `"abcdef"`, `take_until(tag("d"))` gives `"abc"` and leaves `"def"`; `take_till` leaves `"ef"` and returns `"d"` |
| Parse.TakeUntilExampleF | stilts-lang/src/parse.rs:427-429 | `take_until(tag("f"))` gives `"abcde"` and leaves `"f"` |
| Parse.TakeTillExampleF | stilts-lang/src/parse.rs:446-449 | `take_till(tag("f"))` gives `"abcde"`, returns `"f"` and leaves `""` |
| Parse.TakeUntilExampleClose | stilts-lang/src/parse.rs:430-434 | `take_until(tag("%}"))` on `" i %}"` gives `" i "` and leaves `"%}"` |
| Parse.ManyUntilExampleD | stilts-lang/src/parse.rs:453-472 | `many_until(anychar, tag("d"))` collects a, b, c and leaves `"def"`; `many_till` leaves `"ef"` and returns `"d"` |
| Parse.ManyUntilExampleF | stilts-lang/src/parse.rs:460-462 | with `tag("f")` it collects a to e and leaves `"f"` |
| Parse.ManyTillExampleF | stilts-lang/src/parse.rs:474-477 | `many_till` collects a to e, returns `"f"` and leaves `""` |
| Types.CowIntoOwned | stilts-lang/src/types.rs:110-117 | an owned copy of a `Cow` has the same text |
| Types.RootIntoOwned | stilts-lang/src/types.rs:107-109 | every item is converted, in order, keeping the length |
| Types.ItemIntoOwned | stilts-lang/src/types.rs:110-133 | the variant is preserved; content text, block names and loop labels are kept |
| Types.ItemsIntoOwned | stilts-lang/src/types.rs:107-133 | a list is converted item by item, keeping its length and order |
| Types.BranchIntoOwned | stilts-lang/src/types.rs:135-153 | the `ElseIf`/`Else`/`End` shape and conditions are preserved, including the tail's shape |
| Types.ArmsIntoOwned | stilts-lang/src/types.rs:125-130 | each arm keeps its pattern and guard; only its content is converted |
| Types.ExprIntoOwned | stilts-lang/src/types.rs:155-166 | each expression keeps its variant and payload; everything but `extends` and `include` is unchanged |
| Types.ItemsIntoOwnedCopies | stilts-lang/src/types.rs:94-166 | converting a list yields an owned, same-shaped copy, equal to the list when it was already owned |
| Types.ItemIntoOwnedCopies | stilts-lang/src/types.rs:110-133 | the same for one item |
| Types.BranchIntoOwnedCopies | stilts-lang/src/types.rs:135-153 | the same for an `if` branch chain |
| Types.RootIntoOwnedIdempotent | stilts-lang/src/types.rs:107-109 | converting a root yields an owned, same-shaped copy, and converting twice is converting once |
| Unicode.Utf8Width | stilts-lang/src/locate.rs:39-55 | one to four bytes per character, one exactly for ASCII |
| Unicode.Utf8LenAppend | stilts-lang/src/locate.rs:39-55 | the byte length of a concatenation is the sum of the byte lengths |
| Unicode.Utf8LenBounds | stilts-lang/src/locate.rs:39-55 | the byte length is between one and four times the character count |
| Unicode.Utf8LenAscii | stilts-lang/src/locate.rs:39-55 | on ASCII the byte length is the character count |
| Unicode.LeadingWhitespace | stilts-lang/src/parse.rs:139-163 | the run of whitespace that starts the text, stopping at a non-whitespace character |
| Unicode.TrailingWhitespace | stilts-macros/src/expand.rs:277-287 | the run of whitespace that ends the text |
| Unicode.Trim | stilts-macros/src/expand.rs:277-287 | `trim` removes whitespace only at both ends, leaves no whitespace at either edge, and is blank iff the input is |
| Expand.GetParent | stilts-macros/src/expand.rs:123-128 | a parent exists iff the first item is an `extends`, and it is that item's path |
| Expand.GetParentOnlyFirst | stilts-macros/src/expand.rs:123-128 | an `extends` after the first item names no parent |
| Expand.GetBlocks | stilts-macros/src/expand.rs:130-161 | `get_blocks` over a list of items; the lemmas below state which names it registers and which entry wins |
| Expand.BlockEntries | stilts-macros/src/expand.rs:140-152 | a block item registers its own name with itself as the entry; any other item registers nothing |
| Expand.GetBlocksAppend | stilts-macros/src/expand.rs:131-161 | the registry of a concatenation is the union of both, the later part winning |
| Expand.GetBlocksRegistersTopLevel | stilts-macros/src/expand.rs:131-161 | every top-level block's name is registered |
| Expand.GetBlocksLastWins | stilts-macros/src/expand.rs:131-161 | a block's entry is that block when no later item registers its name |
| Expand.NotInLaterEntries | stilts-macros/src/expand.rs:131-161 | a name no item contributes is not registered |
| Expand.EntriesRegistered | stilts-macros/src/expand.rs:130-161 | every name an item of a list contributes is in that list's registry |
| Expand.NestedBlockRegistered | stilts-macros/src/expand.rs:140-158 | for any block, its registry is its own name plus everything its body registers; every block directly in its body, and whatever that block registers, is registered too |
| Expand.NestedTwoDeepRegistered | stilts-macros/src/expand.rs:130-161 | a block nested two levels deep in a top-level block is registered in the template's registry |
| Expand.BlockUnderForNotRegistered | stilts-macros/src/expand.rs:131-161 | a block under a `for` is not registered |
| Expand.NoBlocks | stilts-macros/src/expand.rs:131-161 | items with no block register nothing |
| Expand.LoneBlock | stilts-macros/src/expand.rs:131-161 | a lone block with nothing nested registers exactly its own name |
| Expand.MakeNode | stilts-macros/src/expand.rs:86-97 | a loaded node has the path, the owned root, its own registry and the requested trim override |
| Expand.AppendNode | stilts-macros/src/expand.rs:78-99 | pushing a new parent keeps the chain linked, free of repeated paths and well built |
| Expand.Climb | stilts-macros/src/expand.rs:78-99 | the `while let` loop of `load` as a recursive definition: read, cycle check, parse and push until no `extends`; `ClimbEnds`, `ClimbSound` and `ClimbPrefix` state its properties |
| Expand.ClimbStep | stilts-macros/src/expand.rs:78-99 | one loop turn pushes a readable, unvisited, parsed parent and goes on from its `extends` |
| Expand.ClimbEnds | stilts-macros/src/expand.rs:78-99 | a successful loop ends at a template with no `extends` |
| Expand.ClimbSound | stilts-macros/src/expand.rs:78-99 | a successful loop keeps the chain linked, free of repeated paths and well built |
| Expand.ClimbPrefix | stilts-macros/src/expand.rs:78-99 | the loop only pushes: the starting chain is a prefix of its result |
| Expand.LoadFirst | stilts-macros/src/expand.rs:40-55 | the requested template's node carries its path (none for literal text), its registry and the trim override |
| Expand.Reverse | stilts-macros/src/expand.rs:101 | the reversal puts element `i` at `n - 1 - i` |
| Expand.LoadSpec | stilts-macros/src/expand.rs:37-103 | `load` as a definition: the requested template, the climb from its `extends`, then the reversal; `LoadedChainShape` states its properties |
| Expand.Load | stilts-macros/src/expand.rs:37-103 | the method with its loop computes the chain specification |
| Expand.LoadedChainShape | stilts-macros/src/expand.rs:37-103 | a loaded chain ends with the requested template, starts with a template with no `extends`, each node extends the previous one, no path repeats, and every node with a path holds the owned copy of the template read from that path |
| Expand.ReversedChain | stilts-macros/src/expand.rs:101 | reversing a linked climb puts the root ancestor first with each node extending its predecessor |
| Expand.CycleExample | stilts-macros/src/expand.rs:57-83 | `a.html` extending `b.html` extending `a.html` fails with `dependency cycle detected: a.html -> b.html -> a.html` |
| Expand.LiteralCycleExample | stilts-macros/src/expand.rs:57-83 | a literal template extending `a.html`, which extends itself, fails with `dependency cycle detected: a.html -> a.html`: the path-less literal is neither listed nor checked |
| Expand.PathList | stilts-macros/src/expand.rs:63-70 | the paths of the chain in loading order, each followed by `" -> "`, path-less nodes left out; `CycleMessageOfTwo` and `LiteralPathList` state instances |
| Expand.CycleMessage | stilts-macros/src/expand.rs:57-76 | the message starts with `dependency cycle detected: ` and ends with the repeated path |
| Expand.CycleMessageOfTwo | stilts-macros/src/expand.rs:57-76 | for a chain `a.html`, `b.html` meeting `a.html` again, the message lists both paths, each followed by `" -> "`, then the repeated path |
| Expand.Parent | stilts-macros/src/expand.rs:169-171 | no parent at index 0, otherwise the index before |
| Expand.Child | stilts-macros/src/expand.rs:174-181 | no child at the last index, otherwise the index after |
| Expand.Deepest | stilts-macros/src/expand.rs:186-196 | the highest index from `idx` on that registers the name, or `idx` itself; no later node registers it |
| Expand.DeepestChild | stilts-macros/src/expand.rs:186-196 | the loop computes `Deepest` |
| Expand.DeepestUnique | stilts-macros/src/expand.rs:186-196 | any index with `Deepest`'s three properties is `Deepest` |
| Expand.Then | stilts-macros/src/expand.rs:107-121 | output is collected in order: both outputs one after the other when both succeed, otherwise the first failure (the first outcome's when it failed, else the second's) |
| Expand.ContentText | stilts-macros/src/expand.rs:277-287 | content is written iff it is not blank, trimmed when trimming is on |
| Expand.TrimSetting | stilts-macros/src/expand.rs:277-287 | the node's override wins over the configured default |
| Expand.ExpandItem | stilts-macros/src/expand.rs:265-370 | `expand_item` as a definition over abstract fragments; `ContentWritten`, `ExtendsAndSuperWriteNothing` and `UnregisteredBlockFails` state its cases |
| Expand.ExpandBranch | stilts-macros/src/expand.rs:227-250 | `expand_if_branch`: nothing for `End`, the `else` body, or the `else if` body followed by its tail; `BranchFuel` states its fuel adequacy |
| Expand.ExpandArms | stilts-macros/src/expand.rs:253-262 | every arm's body in order, each between its pattern and guard and a close; `ArmsFuel` states its fuel adequacy |
| Expand.ExpandBlock | stilts-macros/src/expand.rs:220-224 | a name the deepest node does not register is the failing `unwrap` |
| Expand.ExpandBody | stilts-macros/src/expand.rs:199-216 | `expand_block_inner` as a definition; `SuperWithoutParentBlock`, `SuperExpandsParentBlock` and `BodyCons` state its cases |
| Expand.Unexpanded | stilts-macros/src/expand.rs:373-383 | an item is kept exactly when it is not a top-level block already emitted |
| Expand.UnexpandedSingle | stilts-macros/src/expand.rs:373-383 | one item is dropped exactly when it is a block whose name was already emitted, and kept otherwise |
| Expand.UnexpandedAppend | stilts-macros/src/expand.rs:373-383 | the filter distributes over concatenation, so kept items keep their order; with `UnexpandedSingle` this fixes the result exactly |
| Expand.ExpandTemplate | stilts-macros/src/expand.rs:372-383 | `TemplateRef::expand`: the items left by `Unexpanded`, expanded in order; `SkippedIffRegisteredBefore` states which blocks are skipped |
| Expand.RegisteredBefore | stilts-macros/src/expand.rs:107-121 | a name counts as already emitted iff some earlier node registers it |
| Expand.NodeOutput | stilts-macros/src/expand.rs:111-118 | one node's turn of `Graph::expand`: its `include_bytes!`, then `TemplateRef::expand` with every name earlier nodes registered; `NodeOutputs` and `ExpandStep` state it |
| Expand.Collect | stilts-macros/src/expand.rs:107-121 | the outputs one after another, stopping at the first failure; `CollectStep` states one turn |
| Expand.ExpandSpec | stilts-macros/src/expand.rs:107-121 | `Graph::expand` as a definition; `ExpandGraph` computes it and `ExpandSpecFuel` states its fuel adequacy |
| Expand.NodeOutputs | stilts-macros/src/expand.rs:107-121 | one output per node: its `include_bytes!`, then its remaining items |
| Expand.CollectStep | stilts-macros/src/expand.rs:107-121 | one turn of the loop: a success appends its output, a failure ends the loop |
| Expand.ExpandStep | stilts-macros/src/expand.rs:107-121 | one turn of `Graph::expand`, in terms of the collected outputs |
| Expand.IncludedStep | stilts-macros/src/expand.rs:111-118 | one turn of the loop, for an output made of the `include_bytes!` and the node's expansion |
| Expand.ExpandGraph | stilts-macros/src/expand.rs:107-121 | the method with its loop computes the expansion specification |
| Expand.ExtendsAndSuperWriteNothing | stilts-macros/src/expand.rs:337-338 | `extends` and `super()` met as ordinary items write nothing |
| Expand.ContentWritten | stilts-macros/src/expand.rs:277-287 | content writes its text, trimmed when trimming is on for the node, iff the text is not blank |
| Expand.UnregisteredBlockFails | stilts-macros/src/expand.rs:220-224 | a block name no node from `idx` on registers is the failing `unwrap` |
| Expand.BlockUnderForFails | stilts-macros/src/expand.rs:131-161 | a block written only under a `for` fails to expand, because it was never registered |
| Expand.SuperWithoutParentBlock | stilts-macros/src/expand.rs:199-216 | `super()` with no parent, or a parent without the block, writes nothing |
| Expand.SuperExpandsParentBlock | stilts-macros/src/expand.rs:199-216 | `super()` writes the parent's block of the same name in its place |
| Expand.SkippedIffRegisteredBefore | stilts-macros/src/expand.rs:373-383 | a top-level block is expanded in node `k` iff no earlier node registered its name |
| Expand.ItemsCons | stilts-macros/src/expand.rs:373-383 | items are expanded one after another, in order |
| Expand.BodyCons | stilts-macros/src/expand.rs:199-216 | a block body is expanded one item after another, in order |
| Expand.ThenFuel | stilts-macros/src/expand.rs:107-121 | collecting two outcomes that more fuel leaves unchanged (unless they ran out) gives an outcome more fuel leaves unchanged |
| Expand.ItemsFuel | stilts-macros/src/expand.rs:265-370 | a list expansion that did not run out of fuel is the same at any larger fuel |
| Expand.ItemFuel | stilts-macros/src/expand.rs:265-370 | an item expansion that did not run out of fuel is the same at any larger fuel |
| Expand.BranchFuel | stilts-macros/src/expand.rs:227-250 | an `if` branch expansion that did not run out of fuel is the same at any larger fuel |
| Expand.ArmsFuel | stilts-macros/src/expand.rs:253-262 | a match arms expansion that did not run out of fuel is the same at any larger fuel |
| Expand.BlockFuel | stilts-macros/src/expand.rs:218-224 | a block expansion that did not run out of fuel is the same at any larger fuel |
| Expand.BodyFuel | stilts-macros/src/expand.rs:199-216 | a block body expansion that did not run out of fuel is the same at any larger fuel |
| Expand.CollectFuel | stilts-macros/src/expand.rs:107-121 | collecting outputs that more fuel leaves unchanged (unless they ran out) gives the same result with more fuel |
| Expand.ExpandSpecFuel | stilts-macros/src/expand.rs:107-121 | a whole expansion that did not run out of fuel is the same at any larger fuel, so `OutOfFuel` comes only from the bound |
| Expand.SelfNestedRegistry | stilts-macros/src/expand.rs:130-161 | in `[Block(a { Block(a {}) })]` the outer block is the only entry for `a` |
| Expand.SelfNestedBlockLoops | stilts-macros/src/expand.rs:199-224 | in that template, expanding any block named `a` runs out of fuel at every fuel: its deepest registration leads back to itself |
| Expand.SelfNestedDiverges | stilts-macros/src/expand.rs:107-121 | that template alone is `OutOfFuel` at every fuel, where the source recurses without end |
| Expand.OverriddenNestTerminates | stilts-macros/src/expand.rs:130-224 | in `[Block(a { Block(a {}) }), Block(a {})]` the later empty block wins the registry, and with any fuel of at least one the template writes nothing |
| Expand.ExampleRegistries | stilts-macros/src/expand.rs:131-161 | in a base/child pair, each template registers only its own `body` |
| Expand.ExampleNavigation | stilts-macros/src/expand.rs:186-196 | the child is the deepest holder of `body`, which only the base registers before it |
| Expand.ExampleChildBody | stilts-macros/src/expand.rs:199-216 | the child's override writes its text around the base's text where `super()` stands |
| Expand.ExampleBaseOutput | stilts-macros/src/expand.rs:373-383 | the base's output is its `include_bytes!` followed by the child's override |
| Expand.ExampleChildOutput | stilts-macros/src/expand.rs:373-383 | the child's output is only its `include_bytes!`, because its `body` was already emitted |
| Expand.ExampleExpansion | stilts-macros/src/expand.rs:107-121 | the whole chain writes the base's `include_bytes!`, the child's text around the base's, then the child's `include_bytes!` |

## Left out

- Units: every position is a character index. `locate.rs` mixes character and byte units: `spanned` slices by byte, while `byte_offset` counts characters. The model uses one unit, so `Tag` comparing `|pat|` characters matches the source only on ASCII. Byte quantities (`byte_offset`, `byte_len`, the offsets of `get_line_col` and `get_offset`) are sums of UTF-8 widths.
- Host-language parsing and code generation (`syn`, `quote`, `Error::from_syn`, the `TokenStream`): output is a sequence of abstract fragments, and Rust expressions are opaque values.
- File I/O (`read_template`, `std::fs`), configuration and environment lookup: the loader is a map from path to an already parsed root, or to a parse failure.
- `relative_to`: the cycle message uses the paths as given, without making them relative to the project root.
- `escape_override` and the escaper it selects: not modelled.
- `miette` rendering in `format_err` and the report handlers: not modelled.
- The template grammar (`parse::root` and its productions) is not part of this model. The `Root` trees are inputs.
- The `For`, `If`, `Match`, `Macro`, `MacroCall`, `Expr` and `Stmt` arms of `expand_item` are modelled as opening and closing fragments around their expanded content, not as the exact tokens spliced.
- `Include` loads a fresh graph for another template and expands it. It is modelled as one `IncludeTemplate` fragment carrying the reference and its opaque arguments. The fragment never fails and never recurses, so the model captures neither of two source behaviours. First, the source passes on the included template's read, parse, cycle and missing-block failures. Second, it recurses forever on a template that includes itself, directly or through another template, because the cycle check sees only the new graph.
- `Expr::Include` is a bare string in `types.rs` but a reference with arguments in `expand.rs`; the model follows `expand.rs`.
- Expand.ExpandBlock: expansion carries a fuel bound, and running out gives `OutOfFuel`. The source recurses without bound; block expansion fails to terminate only where the deepest registration of a block name leads back to itself (`SelfNestedDiverges`). A block nested in a block of the same name terminates when a later block of that name wins the registry (`OverriddenNestTerminates`). `ExpandSpecFuel` shows that any other outcome is the one every larger fuel gives.
- Parse.ManyUntil: the step parser must only move forward (`SuffixParser`), which gives the loop a termination measure. The source does not demand this, but every parser in the crate satisfies it.
- Parse.ManyTill: the same requirement as `many_until`.
- Expand.Load: the in-place `reverse` of the vector is modelled as a sequence `Reverse`.
- Errors.DisplaySimple: the body computes the trimmed text of the span's line (that line, else the last line), but the contract states only the message, line and column. The formatted string itself is not modelled.
- `HashMap` iteration order does not matter to the resolver, which only looks up names; the registry is a Dafny `map`.
- LocatedStream.OffsetFrom: when the cursor starts before the origin, the `usize` subtraction panics if overflow checks are on and wraps around otherwise. The model makes that case a precondition.
- LocatedStream.Cursor.NextSlice: `n` is limited to what is left, as the stream contract demands of callers.

## Findings

| source | as written | input that shows it | evidently intended | confidence | as-written member | corrected member |
|---|---|---|---|---|---|---|
| stilts-lang/src/parse.rs:139-149 | `whitespace0` finds the first non-whitespace index and falls back to 0 with `unwrap_or(0)`, so input made only of whitespace is not consumed | `whitespace0("  ")` leaves `"  "` | consume every leading whitespace character, leaving `""` | not executed | Parse.Whitespace0AsWrittenKeepsAllWhitespace | Parse.Whitespace0 |
| stilts-lang/src/locate.rs:64-87 | `try_slice` checks each end against `end_offset` but not that the start does not pass the end | `Located::new("abcd").try_slice(3..1)` returns `Some` of a window from 3 to 1 | return `None` for an inverted range | not executed | Locate.TrySliceAsWrittenInverted | Locate.TrySlice |
