# Skill-cloud typewriter: a Dafny model

This project models the one piece of behaviour in the "Technical Skills" card of the profile page
(`src/App.jsx`). The card has four parts:

- **Tokenizer** (`splitSkills`). It scans a comma-separated skill string and keeps a parenthesis
  depth that is never clamped. It cuts only at commas met at depth 0, trims every piece, and drops
  the pieces that are empty after trimming. The tokens of all skill groups are concatenated in
  group order (`flatMap`).
- **Typewriter.** This is a state machine with three phases (`typing`, `pause`, `deleting`), a
  counter `idx` that only grows, and the displayed text `shown`. Each timer callback is one
  `Step`. The current token is `all[idx % all.length] || ""`.
- **Cursor blink.** An independent timer stream negates the cursor flag.
- **Tag cloud.** A chip is highlighted exactly when its text equals the current token. `sizeFor`
  picks a text size from the tag's length.

The model has four modules, one file each:

- `Text` (`text.dfy`): JavaScript `trim()`, stripping ECMAScript WhiteSpace and LineTerminator
  code points.
- `Skills` (`skills.dfy`) holds two descriptions of the tokenizer and proves them equal:
  - `Segments`, a reference segmentation that says where the cuts fall, with `Tokens` cleaning
    its pieces;
  - `SplitSkills`, the source's character loop with its buffer, depth and result list.
- `Typewriter` (`typewriter.dfy`): the phase machine, runs of `n` ticks, one full cycle, the blink,
  and the interleaving of the two timer streams.
- `Cloud` (`cloud.dfy`): skill groups, the flattened token cycle, the chip highlight, and `sizeFor`.

Strings are `seq<char>`, which is a sequence of code points. The tokenizer iterates code points
(`for…of`), but the typewriter measures and slices in UTF-16 units. The model assumes the skill
texts contain no surrogate pairs, so the two views agree.

Three behaviours of the code are worth stating outright, because a reader might expect otherwise:

- **Empty token list.** The machine does not idle. The current token reads as `""`, and `idx`
  grows by one every three ticks (`Typewriter.EmptyListKeepsCycling`).
- **Counter.** `idx` is never reduced. The modulo by the list length is applied only when the
  token is read (`Typewriter.Current`).
- **Fixed token list.** Nothing clamps or resets `idx` when the list changes. The list is rebuilt
  from constant data on every render and is always the same, so the model takes `all` as a fixed
  parameter.

## Model

| member | source | states |
|---|---|---|
| `Skills.SplitSkills` | src/App.jsx:556-571 | The scanning loop returns exactly the trimmed, non-empty pieces of the depth-0 segmentation, in order. Every token it returns is non-empty and equal to its own trim. |
| `Skills.SegmentsJoin` | src/App.jsx:558-569 | Joining the raw pieces with `,` gives back the input exactly. The only characters the cuts remove are the cut commas. |
| `Skills.Segments` | src/App.jsx:558-569 | The reference segmentation into the raw pieces between depth-0 commas. There is one cut per comma met at depth 0, so there is exactly one piece more than there are such commas. |
| `Skills.Tokens` | src/App.jsx:556-570 | The reference tokenizer: the trimmed, non-empty pieces of the segmentation. There are at most as many tokens as depth-0 commas plus one. |
| `Skills.SegmentsNoTopComma` | src/App.jsx:559-567 | No raw piece holds a comma at depth 0. The first piece is scanned from the starting depth, and every later piece from depth 0. |
| `Skills.TokensAreClean` | src/App.jsx:563-569 | Every token is non-empty and equal to its own trim. |
| `Skills.TokensNoTopComma` | src/App.jsx:559-569 | No token contains a comma at depth 0. Trimming removes only whitespace, which does not move the depth. |
| `Skills.BlankYieldsNothing` | src/App.jsx:563-570 | Empty or whitespace-only input yields no token. |
| `Skills.SegmentsAppend` | src/App.jsx:559-567 | Segmenting `p + q` segments `q` from the depth `p` ends at. The last piece of `p` and the first piece of `q` merge into one piece. |
| `Skills.TopLevelCommaCuts` | src/App.jsx:560-564 | A comma met at depth 0 is a cut. The two sides are segmented independently, and the right side starts from depth 0. |
| `Skills.NestedCommaStays` | src/App.jsx:560-567 | A comma met at any non-zero depth is not a cut. It stays inside the piece that joins its left and right neighbours. |
| `Skills.TopCommaSplitsTokens` | src/App.jsx:562-569 | For the tokens: a depth-0 comma splits the input into two halves that are tokenized independently. |
| `Skills.OpenParenSuppressesCuts` | src/App.jsx:560-562 | While the depth is positive and no `)` follows, no comma cuts. An `(` opened at depth 0 or more and never closed suppresses every later cut. |
| `Skills.StrayCloseSuppressesCuts` | src/App.jsx:560-562 | After a stray `)` the depth is negative. While no `(` follows, no comma cuts. |
| `Skills.UnbalancedTailIsAbsorbed` | src/App.jsx:560-567 | When no later comma is met at depth 0 (for example because unbalanced parentheses keep the depth away from 0), the whole rest of the input joins the last piece. This is not an error. |
| `Skills.NoTopCommaOnePiece` | src/App.jsx:560-567 | A string that holds no comma at depth 0 is not cut: it is a single piece. |
| `Text.Trim` | src/App.jsx:563 | `trim()` is never longer than its input, and its result neither starts nor ends with whitespace. |
| `Text.TrimBounds` | src/App.jsx:563 | `trim()` returns a slice of its input whose margins are all whitespace. The slice neither starts nor ends with whitespace. |
| `Text.TrimEmptyIff` | src/App.jsx:563 | The trimmed string is empty exactly when the input is all whitespace, so the truthiness test drops exactly the blank pieces. |
| `Text.TrimIdempotent` | src/App.jsx:563 | Trimming twice is the same as trimming once. |
| `Typewriter.Current` | src/App.jsx:579 | The animated token is always a token of the list, whatever the counter value, because the modulo is applied when reading. An empty list reads as "". |
| `Typewriter.Prefix` | src/App.jsx:591 | `slice(0, n)` returns a prefix of its input whose length is `n` clamped to the input length. |
| `Typewriter.Step` | src/App.jsx:587-606 | Every tick changes `phase` or `shown`, two of the effect's dependencies, so the effect is always re-armed and the machine never stalls. The phase stays or moves to the next one (typing, then pause, then deleting). `idx` grows by one exactly when a deleting tick finds `shown` empty, and never otherwise. |
| `Typewriter.StepTicks` | src/App.jsx:589-603 | From a consistent state: a typing tick appends the next character of the current token, or moves to pause once the token is complete. A pause tick only moves to deleting. A deleting tick drops the last character, or moves to typing the next token once nothing is left. Consistency is kept. |
| `Typewriter.RunKeepsConsistent` | src/App.jsx:589-603 | Consistency is kept over any number of ticks: `shown` stays a prefix of the current token, and equals the whole token while pausing. |
| `Typewriter.ReachableIsConsistent` | src/App.jsx:576-603 | From the mounted state (`idx` 0, typing, `shown` empty), `shown` is always a prefix of the current token and never longer than it. |
| `Typewriter.RunIdxMonotone` | src/App.jsx:599-602 | `idx` never decreases, and it grows by at most one per tick. |
| `Typewriter.FullCycle` | src/App.jsx:589-603 | Start typing token `i` with `shown` empty, where the token has length n. Exactly 2n+3 ticks later the machine is typing again with `shown` empty, on token `i + 1`. No earlier tick leaves token `i`. |
| `Typewriter.VisitsInOrder` | src/App.jsx:576-603 | Tokens are visited in order: after the summed cycle lengths of tokens `0..m-1`, the machine starts typing token `m` with `shown` empty. |
| `Typewriter.VisitsEveryToken` | src/App.jsx:579 | For a non-empty list, every position `j` becomes current again in every round `m`, at counter value `m·|all| + j`. |
| `Typewriter.EmptyListKeepsCycling` | src/App.jsx:579-602 | With no tokens the machine does not idle. It cycles with `shown` empty, three ticks per round, and round `m` ends with `idx` equal to `m`. |
| `Typewriter.GoThenRust` | src/App.jsx:589-603 | With tokens "Go" and "Rust", seven ticks type, pause on and delete "Go". The machine is then typing with `idx` 1 and `shown` empty, and the current token is "Rust". |
| `Typewriter.Blink` | src/App.jsx:583 | A blink tick always flips the cursor flag. |
| `Typewriter.Handle` | src/App.jsx:582-606 | A blink tick leaves the phase machine untouched, and a phase tick leaves the cursor untouched. |
| `Typewriter.PlayIsIndependent` | src/App.jsx:582-606 | Under any interleaving of the two timer streams, the phase machine is the run of the phase ticks alone. The cursor has flipped once per blink tick, whatever the phase. |
| `Cloud.AllTokens` | src/App.jsx:573 | The flattened cycle of all groups' tokens. Every token in it is non-empty and already trimmed. |
| `Cloud.AllTokensAppend` | src/App.jsx:573 | Flattening distributes over concatenation of the group list. |
| `Cloud.AllTokensMember` | src/App.jsx:573-640 | A string is in the token cycle exactly when some group renders it as a chip. |
| `Cloud.AllTokensClean` | src/App.jsx:573 | Every token of the cycle is non-empty, already trimmed, and has no comma at depth 0. |
| `Cloud.IsActive` | src/App.jsx:641 | A chip is highlighted only if its text is a token of the cycle. With an empty cycle, only an empty text would be highlighted. |
| `Cloud.SomeChipActive` | src/App.jsx:640-641 | With a non-empty cycle, at every moment some chip of some group is highlighted. |
| `Cloud.NoTokensNoChips` | src/App.jsx:573-641 | With an empty cycle no group renders a chip, and the current token reads as "". |
| `Cloud.ActiveChipIsTyped` | src/App.jsx:591-641 | A highlighted chip is never empty. At any reachable moment the prompt shows a prefix of the highlighted chip's text. |
| `Cloud.SizeFor` | src/App.jsx:612-615 | The size is always one of the three text-size classes. |
| `Cloud.SizeForMonotone` | src/App.jsx:612-615 | A longer tag is never set in a larger size than a shorter one. |

## Left out

- Timers and the effect lifecycle are left out. This covers `setTimeout` and `setInterval`, the
  45/800/25/500 ms delays, and the `clearTimeout`/`clearInterval` cleanup and disposal on unmount.
  They are host scheduling. Each callback is modelled as one abstract tick (`Step`, `Blink`).
- React hooks and re-rendering are left out. This covers the `useState`/`useEffect` plumbing and
  the hooks being called inside an inline function. The model keeps only the state the callbacks
  change. `Step` proves every tick changes `phase` or `shown`, which is why the effect always
  re-arms.
- The static skill data (`GROUPS`) and all other page content are not modelled. The groups are a
  parameter of the model.
- Rendering is not modelled. This covers the JSX markup, class strings other than `sizeFor`'s,
  theme toggling, scrolling to sections, the ring chart (floating point), charts and icons, and
  the presentational `Card`/`Button`/`Badge` components.
- UTF-16 is not modelled. Strings are code-point sequences, and the skill texts are assumed to
  contain no surrogate pairs.
- A token list that changes while the machine runs is not modelled. In the source `all` is always
  the same list, so the model fixes it for the whole run.
- `Typewriter.State`: `idx` is an unbounded counter. In the source it is a JavaScript number,
  exact only below 2^53. After that, `i + 1` stops changing it, which no real session reaches
  (one increment takes at least three ticks of 25 ms or more).
