# Farcade integration: HTML rewriting

This project models the text-patching core of the MAFIBO game's Farcade
integration script, `remixIntegration.js`. The script reads the game's HTML
template and inserts the Farcade SDK `<script>` tag before `</head>`. It then
edits the game's inline JavaScript with four ordered rewrites:

1. It signals `ready()` after the play-button listener.
2. It reports the score with `gameOver` instead of reloading when the player loses.
3. It does the same when the player wins.
4. It registers the `play_again` and `toggle_mute` handlers after the play-button listener.

It then writes the result. Each rewrite is a non-global JavaScript
`String.prototype.replace`, so it changes only the first match, and it is a
silent no-op when its pattern does not match.

The project has three modules:

- `StringSearch` (`string_search.dfy`) models the subset of JavaScript
  regular expressions the script uses. A pattern is a chain of literal
  fragments joined by lazy `[\s\S]*?` gaps. The module provides a
  first-occurrence matcher (`IndexOf`, `ChainEnd`, `FindChain`), the four
  forms of replace-first the script uses, and generic lemmas about where
  edits land and how two edits compose.
- `RegexReference` (`regex_reference.dfy`) is a backtracking, leftmost,
  lazy-gap engine written the way a JavaScript regex engine runs such a
  pattern. It proves that the first-occurrence matcher returns exactly the
  same match.
- `RemixIntegration` (`remix_integration.dfy`) holds the script's constants,
  `injectFarcadeSDK`, the four rules of `injectFarcadeGameLogic` and the
  abort-or-rewrite decision of `integrateFarcade`, together with the
  properties of each.

The four inserted JavaScript blocks are opaque strings. The rules take them as
a `Blocks` value, so every property below holds for any inserted text.
`FarcadeBlocks` holds the script's own texts, and `InjectGameLogic` uses
them.

## Model

| member | source | states |
|---|---|---|
| StringSearch.IndexOf | remixIntegration.js:34 | The result is an occurrence of the literal at or after `from`, and no earlier position at or after `from` is an occurrence. `None` means there is none. |
| StringSearch.IndexOfNoneIffAbsent | remixIntegration.js:34 | A literal search finds nothing exactly when the literal occurs nowhere in the text. |
| StringSearch.ChainEnd | remixIntegration.js:55 | Searching for the fragments of a lazy-gap chain from a position either fails or ends at or after that position, and within the text when the chain is not empty. |
| StringSearch.FindChain | remixIntegration.js:55 | A chain match lies within the text, starts at the first occurrence of its first fragment, and ends after that fragment. |
| RegexReference.LazyEndIsChainEnd | remixIntegration.js:55 | Backtracking over lazy `[\s\S]*?` gaps ends exactly where taking every fragment at its first occurrence ends. |
| RegexReference.Search | remixIntegration.js:71 | The leftmost-match search returns a span inside the text whose anchored match ends at the span's end. |
| RegexReference.SearchIsFindChain | remixIntegration.js:55-57 | The leftmost backtracking match of a lazy-gap chain equals the first-occurrence chain match, for every text and start position. |
| StringSearch.ReplaceFirst | remixIntegration.js:57 | A non-global replace leaves the text unchanged when the pattern does not match. |
| StringSearch.ReplaceWithinFirst | remixIntegration.js:56-57 | `s.replace(outer, match => match.replace(inner, rep))` leaves the text unchanged when the outer pattern does not match; `ReplaceWithinEffect` gives the text when it does. |
| StringSearch.InsertAfterFirst | remixIntegration.js:44-45 | Replacing a literal match by `match + block` leaves the text unchanged without a match. Otherwise it equals the text up to the end of the first occurrence, then `block`, then the rest. |
| StringSearch.InsertBeforeFirst | remixIntegration.js:34 | Replacing a literal by `block + literal` leaves the text unchanged without a match. Otherwise it equals the text before the first occurrence, then `block`, then the rest starting at that occurrence. |
| StringSearch.InnerMatchWithinOuter | remixIntegration.js:56-57 | When the inner pattern is a run of consecutive fragments of the outer one, an inner match always exists inside the first outer match. |
| StringSearch.ReplaceWithinEffect | remixIntegration.js:72-73 | A nested replace changes exactly the first inner span inside the first outer match. All text before and after that span is kept. |
| StringSearch.IndexOfCommonPrefix | remixIntegration.js:85 | Text that agrees with another up to the end of its first anchor has its first anchor at the same place. |
| StringSearch.InsertAfterKeepsAnchor | remixIntegration.js:86 | Inserting after an anchor does not move the anchor's first occurrence. |
| StringSearch.InsertAfterTwice | remixIntegration.js:44-52 | Two insertions after the same anchor put the second block between the anchor and the first block. |
| StringSearch.UnanchoredNoOverlap | remixIntegration.js:85 | When a replacement text is `Unanchored` for an anchor, no occurrence of the anchor in any text containing the replacement overlaps the replacement. |
| StringSearch.SpliceAfterKeepsAnchorThen | remixIntegration.js:56 | Replacing a span that lies wholly after the block following the first anchor keeps that anchor first, still followed by the block. |
| StringSearch.SpliceBeforeKeepsAnchorThen | remixIntegration.js:72 | Replacing a span that lies wholly before the first anchor by an `Unanchored` text creates no earlier anchor, so the same anchor, still followed by its block, stays first. |
| StringSearch.InsertAfterAnchorThen | remixIntegration.js:85-87 | Inserting a block after the first anchor, which is followed by some text, leaves that anchor first, followed by the new block and then that text. |
| StringSearch.ReplaceWithinKeepsAnchorThen | remixIntegration.js:56-57 | A nested replacement whose replaced span is clear of the anchor and the block after it keeps the first anchor followed by the block. |
| StringSearch.InsertBeforeTwice | remixIntegration.js:34 | Inserting before a kept anchor twice adds the block twice; the length grows by twice the block's length. |
| RemixIntegration.InjectSdk | remixIntegration.js:30-35 | Without `</head>`, the page is unchanged. Otherwise the output is the text before the first `</head>`, then the SDK tag and `"\n"`, then the rest from that `</head>` on, so later occurrences are untouched. |
| RemixIntegration.InjectSdkTwice | remixIntegration.js:34 | Running the SDK injection again on its output adds a second tag: the length grows by two tag lines and the result differs from a single run. |
| RemixIntegration.ReadySignalRuleEffect | remixIntegration.js:42-52 | Rule 1 inserts the ready block right after the first play-button listener, or leaves the page unchanged when there is none. |
| RemixIntegration.ReadySignalRuleTwice | remixIntegration.js:43-52 | Rule 1 is not idempotent: applied twice, it inserts its block twice after the same anchor, and with a non-empty block the result differs from one application. |
| RemixIntegration.InnerPatternsAreRuns | remixIntegration.js:55-57 | Rule 2's reload pattern is fragments 3 to 5 of its defeat pattern; rule 3's pattern is fragments 3 and 4 of its victory pattern (line 71). |
| RemixIntegration.DefeatRuleEffect | remixIntegration.js:54-68 | Rule 2 leaves the page unchanged without a defeat branch. Otherwise the first delayed reload inside the branch is found, lies within the branch, and exactly that span is replaced; all other text is kept. |
| RemixIntegration.VictoryRuleEffect | remixIntegration.js:70-82 | Rule 3 leaves the page unchanged without a victory branch. Otherwise the span from the first victory comment to the next `location.reload();` lies within the branch and is the only text replaced. |
| RemixIntegration.EventHandlersRuleEffect | remixIntegration.js:84-125 | Rule 4 inserts the handler block right after the first play-button listener, or leaves the page unchanged when there is none. |
| RemixIntegration.GameLogicNoMatch | remixIntegration.js:37-128 | A page on which none of the four patterns matches comes back unchanged. |
| RemixIntegration.InjectGameLogicNoMatch | remixIntegration.js:37-128 | `injectFarcadeGameLogic` with the script's own blocks returns a page on which none of its patterns matches unchanged. |
| RemixIntegration.DefeatRuleKeepsOrder | remixIntegration.js:54-68 | Rule 2 keeps the first play-button listener followed by a given block when the span it replaces lies after that block, or before the listener with a replacement that cannot overlap a listener. |
| RemixIntegration.VictoryRuleKeepsOrder | remixIntegration.js:70-82 | Rule 3 keeps the first play-button listener followed by a given block under the same condition. |
| RemixIntegration.GameLogicOrder | remixIntegration.js:43-125 | Rules 1 and 4 insert after the same listener. Suppose the spans rules 2 and 3 replace each lie wholly after the ready block, or wholly before the first listener with a replacement that cannot overlap a listener. Then the first listener of the output is followed by the handler block and then the ready block. |
| RemixIntegration.InjectGameLogicOrder | remixIntegration.js:37-128 | The same order for `injectFarcadeGameLogic` with the script's own blocks: its first listener is followed by the event handlers and then the ready signal. |
| RemixIntegration.Integrate | remixIntegration.js:133-145 | Nothing is written exactly when the template is missing or empty (`!htmlContent`). Otherwise the output is the game logic applied to the SDK-injected template, in that order. |

## Left out

- File reading and writing (`readFile`, `writeFile`, lines 12-28 and 145). The template is an `Option<string>` input, and `None` stands for `readFile`'s `null` on error. The output is returned instead of written. The configured paths are not modelled.
- Console logging (lines 31, 38, 131, 135, 147-152). It has no effect on the output.
- The `async` wrapper and the top-level call (lines 130 and 156). Nothing is awaited.
- What the inserted JavaScript does (`window.FarcadeSDK` calls, volume settings, `location.reload()`). The blocks are opaque string constants.
- A general regular-expression engine. Only literal patterns and literal chains with lazy `[\s\S]*?` gaps are modelled, which are the only forms the script uses. `$`-substitution in replacement strings is not modelled: the replacement strings at lines 34, 57 and 73 contain no `$`, and the outer replaces at lines 44, 56, 72 and 86 use callbacks.
- RemixIntegration.GameLogicOrder: the order is proved when each span rules 2 and 3 replace lies wholly after the ready block, or wholly before the first listener. The second case needs a replacement that cannot overlap a listener (`Unanchored`). A span that straddles the listener or the ready block is not covered.
- RemixIntegration.InjectGameLogicOrder: the script's two replacement texts do satisfy `Unanchored`: neither contains `B`, neither has `;` in its first 74 characters, and neither ends in a character of the listener's first 74. This is not proved on the literals, because the solver cannot decide character membership in strings of several hundred characters. So for a span before the listener the lemma still asks for `Unanchored` through its hypothesis.
- RemixIntegration.InjectSdkTwice: the second SDK injection is stated by its length and by the result differing from one run, not by the exact position of the second tag.
- The rule functions `ReadySignalRule`, `DefeatRule`, `VictoryRule` and `EventHandlersRule` carry no `ensures` of their own. Their effects are stated by the `...Effect` lemmas above.
