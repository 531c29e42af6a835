# Job Censor content script, modelled in Dafny

Job Censor is a browser extension. Its content script (`content.ts`) walks the text of every page and replaces words about jobs with starred literals. For example, `job` becomes `j*b` and `salary` becomes `s*l*ry`. Each replaced word is wrapped in a `<span class="job-censor-anim">`. The script counts every replaced word and folds the counts into a metrics record in extension storage. It watches the page with a `MutationObserver` and watches the protection flag in storage.

This project models that script as pure functions over immutable data and proves what it does.

- **Pattern pass.** The six table entries are global case-insensitive regular expressions `\b(w1|w2|…)\b`. They run in table order over the text the earlier entries produced (`Rewriter`). Each alternative is made of ASCII word characters. JavaScript's `\b` without the `u` flag and ASCII case folding under `i` therefore make a pattern match exactly the maximal runs of `[A-Za-z0-9_]` whose lower-cased form is an alternative. The model states the pass as a scan over those runs (`Lexer`), and this is exact.
- **Reference reading.** `Pieces.Censor` splits a text into plain pieces and censored pieces. Each censored word goes to the first pattern holding it. The six sequential passes build exactly its rendering and count exactly its censored words (`TableFold`, `Censoring`).
- **Why the order of the table matters.** The wrapper markup contains the word `job`. It is safe only because the `job` pattern runs first (`Markup`).
- **Text-node walk.** `getTextNodes` is modelled on a small DOM tree (`Locator`). The page pass replaces each accepted text node by a span (`Page`). One pass leaves a tree on which a second pass changes nothing and counts nothing.
- **Occurrence maps and metrics.** Occurrence maps are `map<string, int>` (`Occurrences`). The metrics record is `MetricsFold`.
- **Protection flag and observer.** The boot sequence, the storage watcher and the mutation callback act on an explicit world value (`Observer`).

## Behaviour as written

Where the script's intended design and its code differ, the model follows the code:

- The element branch of the callback walks the whole body again, not the inserted subtree (content.ts:247). On an already processed tree that walk changes nothing (`Observer.ElementBranchOnClean`).
- Metrics are flushed once per added text node and once per added element node, not once per batch (content.ts:237, 243, 246-257). An element node later in the same batch rescans a body that is already clean, so it changes nothing and flushes nothing (`Observer.ElementBranchOnClean`). Each `updateMetrics` call adds one to `pagesProcessed` (content.ts:106). In the model, where flushes run one after another, the counter therefore counts flushes, not pages (`Observer.TwoTextRecords`). In the script the flushes of one callback overlap, and all but the last are lost; see "## Left out".
- No node is marked as processed. The rescans the script's own insertions trigger come to rest only because the rewritten text holds no pattern word (`Page.SecondPassIsQuiet`, `Observer.OwnMutationsAreQuiet`).
- The text branch of the callback does not test for blank text, unlike the walker's filter. Blank text holds no word, so the result is the same (`Censoring.BlankIsUntouched`).
- Only the immediate parent's tag is checked. Text inside a `span` inside a `pre` is rewritten (`Locator.NestedUnderSkippedElement`).

## Model

| member | source | states |
|---|---|---|
| Chars.Lower | content.ts:215 | `match.toLowerCase()` on a match: ASCII capitals become small letters, every other character stays, and the length is kept |
| Chars.TagLower | content.ts:123-125 | `tagName.toLowerCase()` as far as membership in the all-ASCII skip list goes: ASCII capitals and the Kelvin sign become small letters |
| Lexer.Lex | content.ts:22-43 | the split of a text into maximal word-character runs and single separators is well formed, and concatenating it gives the text back |
| Lexer.LexConcat | content.ts:22-43 | round trip: a well-formed token list is what lexing its concatenation produces |
| Lexer.LexAppend | content.ts:214 | at a word boundary, the tokens of a concatenation are the tokens of the parts, so a `\b` match never spans the boundary |
| Config.FirstMatch | content.ts:19-45 | the pattern, in table order, that holds a word: it holds the word, no earlier pattern does, and none is found exactly when no pattern holds it |
| Config.TableIsDisjoint | content.ts:19-45 | the six word sets are pairwise disjoint |
| Config.UniquePattern | content.ts:19-45 | with disjoint word sets, a word is counted by pattern `i` exactly when it is one of pattern `i`'s alternatives |
| Rewriter.ApplyPattern | content.ts:214-218 | one `replace` call records only words of its own pattern; a pattern that matches no token leaves the text as it is and records nothing |
| Rewriter.ApplyTable | content.ts:212-219 | every word the six passes record belongs to some pattern of the table |
| Rewriter.ReplaceText | content.ts:207-219 | every key of the returned map is a word of the table |
| Rewriter.ApplyPatternAppend | content.ts:214-218 | a pass over a concatenation split at a word boundary is the two passes joined, both the text and the matches |
| Rewriter.ApplyTableInert | content.ts:212-219 | a text in which no pattern matches a token comes through all six passes unchanged, with no matches |
| Rewriter.QuietAppend | content.ts:214 | a pattern matches nothing in a joined token list exactly when it matches nothing in either part |
| Pieces.Censor | content.ts:212-219 | the reference reading: its pieces spell the text; a word is censored exactly when some pattern holds it, and then with the literal of the first pattern, in table order, that holds its lower-cased form; neighbouring pieces are never two word runs |
| TableFold.StepRender | content.ts:214-218 | running one pattern over a rendering whose wrappers it cannot match censors exactly that pattern's plain words, and matches exactly those words |
| TableFold.FoldCorrect | content.ts:212-219 | the passes after the first `k` entries, run on the rendering after `k` entries, give the rendering after the whole table |
| TableFold.TableIsCensor | content.ts:212-219 | for any table whose later patterns cannot match earlier wrappers, the sequential passes build the first-match rendering and record its censored words, up to order |
| Markup.LexWrap | content.ts:217 | the wrapper lexes as the opening tag's tokens, the literal's tokens and the closing tag's tokens |
| Markup.TableIsSafe | content.ts:19-45 | for the script's table, no pattern matches a word of the wrapper of any earlier pattern's literal |
| Markup.MarkupWouldMatchJob | content.ts:217 | the `job` pattern matches the `job` in the class name of every wrapper |
| Markup.OrderMatters | content.ts:19-45 | with the `job` pattern moved to the end, the table is no longer safe |
| Censoring.PassIsCensor | content.ts:212-219 | the six passes give the rendering of the first-match reading, and their matches are its censored words up to order |
| Censoring.ReplaceTextSpec | content.ts:210-217 | the new markup is the rendering of the reading; the map's keys are the lower-cased censored words; each count is that word's number of censored occurrences; the counts sum to the number of spans inserted |
| Censoring.UnchangedIffNoMatch | content.ts:221-228 | the markup equals the old text exactly when nothing is censored, exactly when the map is empty (so the node is not replaced) |
| Censoring.RenderLonger | content.ts:217 | the markup is never shorter than the text, and strictly longer once a word is censored |
| Censoring.CensoredKeysCount | content.ts:214-216 | there is one recorded word per censored piece |
| Censoring.VisibleIsInert | content.ts:212-219 | the text with every match replaced by its literal contains no pattern word, so a second run finds nothing |
| Censoring.BlankIsUntouched | content.ts:140-142 | text that trims to nothing is left as it is and counted nowhere |
| Examples.UpperCaseJob | content.ts:22 | `JOB` is rewritten to the `j*b` span and counted as `job` |
| Examples.Jobsite | content.ts:22 | `jobsite` is untouched and counts nothing |
| Examples.JobUnderscore | content.ts:22 | `job_x` is untouched, because `_` is a word character |
| Examples.JobAndJobsite | content.ts:212-218 | `job jobsite` becomes the `j*b` span followed by ` jobsite`, and only `job` is counted |
| Examples.TwoTextNodesTwoFlushes | content.ts:238-244 | two sibling text nodes saying `job`, added in one record, raise `pagesProcessed` by two and the `job` count by two when the two flushes run one after another (the script's overlapping flushes keep one; see "## Left out") |
| Locator.GetTextNodes | content.ts:127-153 | every node the walker returns passes the filter |
| Locator.GetTextNodesIsFilter | content.ts:133-152 | the walk returns, in document order, exactly the text nodes whose parent's tag is not skipped and whose text does not trim to nothing |
| Locator.FilterEligible | content.ts:133-144 | the filter keeps the eligible nodes of a list and only those |
| Locator.SitesAreTextNodes | content.ts:128-131 | every listed site is a text node at its path, under an element with the listed tag |
| Locator.SitesComplete | content.ts:128-131 | every text node below the body is listed |
| Locator.NestedUnderSkippedElement | content.ts:135-138 | text directly inside a `PRE` is skipped, while text in a `SPAN` inside it is taken |
| Locator.TextAt | content.ts:238-240 | the text node at a path and its parent element are found exactly when they are there |
| Locator.ReplaceAtHits | content.ts:225 | after `replaceWith`, the new node stands at the old node's path |
| Locator.ReplaceAtOthers | content.ts:225 | `replaceWith` changes no node off the replaced node's path |
| Locator.ReplaceAtKeepsSite | content.ts:225 | replacing one text node leaves every other text node in place, with its text and its parent's tag, even when the two share a parent |
| Page.RewriteAtSites | content.ts:192-197 | after the page pass, every text node's path holds what `replaceTextInNode` made of it |
| Page.RewriteIsClean | content.ts:192-197 | after the page pass, no accepted text node holds a pattern word |
| Page.CleanIsFixed | content.ts:192-197 | a tree without accepted pattern words is left as it is |
| Page.CleanCountsNothing | content.ts:191-200 | on such a tree the merged map is empty |
| Page.CensorSpanClean | content.ts:221-226 | the span built for a rewritten node holds no pattern word in any of its text |
| Page.SecondPassIsQuiet | content.ts:190-200 | a second page pass changes nothing and flushes nothing |
| Page.PageCountsSpec | content.ts:191-200 | the merged map holds, per word, its total over the accepted nodes, and it is empty exactly when every node's map is |
| Page.ProcessPage | content.ts:181-200 | with protection off nothing changes; a flush is never of an empty map |
| Page.InjectStyle | content.ts:156-159 | the style id is present afterwards, and it is added only when it was missing |
| Page.InjectStyleOnce | content.ts:156-159 | injection never makes a second style with this id, and a second injection does nothing |
| Occurrences.AddCounts | content.ts:111-113 | the key union, each key holding the sum of its two counts (missing counts as 0) |
| Occurrences.SumAddCounts | content.ts:105-113 | the sum of a merged map is the sum of the sums |
| Occurrences.MergeInto | content.ts:111-113 | the per-entry loop computes the key-union sum |
| Occurrences.TallyCounts | content.ts:215-216 | counting a list of words gives each word's multiplicity, and the sum grows by the list's length |
| Occurrences.TallyPermutation | content.ts:215-216 | the counts do not depend on the order of the words |
| Occurrences.MergeAllCounts | content.ts:191-197 | merging per-node maps gives the key union with per-key totals |
| Occurrences.MergeAllEmpty | content.ts:198-200 | the merged map is empty exactly when every per-node map is |
| Occurrences.MergeAllSum | content.ts:191-197 | the merged sum is the sum of the per-node sums |
| Occurrences.MergeParts | content.ts:191-197 | the loop over nodes computes the merge, holding each word's total |
| MetricsFold.InitializeMetrics | content.ts:76-88 | a stored record is never touched; with protection on a missing one is created as all zeros; with it off nothing is created |
| MetricsFold.UpdateMetrics | content.ts:91-113 | off, nothing is written; on, the start record (zeros if missing) gets one more page and the current address, and each word gets its count added |
| MetricsFold.UpdateKeepsConsistent | content.ts:105-113 | `totalReplacements == sum(wordsReplaced)` is preserved, and the total grows by exactly the map's sum |
| MetricsFold.UpdateOthersUnchanged | content.ts:111-113 | words absent from the map keep their counts |
| MetricsFold.SumValues | content.ts:105 | the `reduce` over the map's values is its sum |
| MetricsFold.RunUpdateMetrics | content.ts:96-113 | the step-by-step body of `updateMetrics` computes the fold |
| MetricsFold.UpdateExample | content.ts:96-113 | `{5, {job:5}}` plus `{job:2, salary:1}` gives `{8, {job:7, salary:1}}` |
| Observer.StartObserver | content.ts:263-271 | the held observer is disconnected first, so exactly one observer is connected afterwards |
| Observer.StopObserver | content.ts:273-279 | no observer is connected afterwards, and without a held observer nothing happens |
| Observer.FlushMetrics | content.ts:91-92 | `updateMetrics` sets the protection flag from storage and touches nothing but the flag and the record |
| Observer.RunPage | content.ts:181-204 | `processPage` with protection off only records the flag; with it on, it rewrites the page and injects the style |
| Observer.Callback | content.ts:234-235 | the callback does nothing while protection is off |
| Observer.TextBranchSpec | content.ts:238-245 | the text branch puts what the page pass makes of the node at its path, changes nothing off that path, and flushes the node's own map when it is non-empty |
| Observer.TextBranchOnClean | content.ts:238-245 | on a processed tree a text record changes nothing |
| Observer.ElementBranchOnClean | content.ts:246-258 | on a processed tree the element branch's whole-body rescan changes nothing and flushes nothing |
| Observer.OwnMutationsAreQuiet | content.ts:282-286 | after boot with protection on, any records, including those the script's own rewrite causes, change nothing |
| Observer.BootSettles | content.ts:282-291 | after boot, `protectionEnabled` is `stored !== false`; exactly one observer is connected when it is on and none when it is off; the metrics stay consistent |
| Observer.FreshInstallProtects | content.ts:69-74 | with no flag stored (a fresh install) protection counts as on: boot rewrites the whole body and leaves exactly one observer connected |
| Observer.ChangeSettles | content.ts:294-306 | the same holds after every change of the stored flag |
| Observer.CallbackKeepsOk | content.ts:234-261 | the callback keeps the totals consistent, the observers in order, the style single and a settled world settled |
| Observer.SwitchOff | content.ts:296-303 | turning protection off stops the observer, touches neither page nor metrics, and later records are ignored |
| Observer.TextFlushCountsOnePage | content.ts:242-244 | each text node that counted something adds one to `pagesProcessed` |
| Observer.TwoTextRecords | content.ts:236-245 | any two distinct attached text nodes in one record, siblings included, are handled separately: each node with a non-empty map is a flush of its own and one more page, each node under a skipped parent adds nothing, and every word's count grows by the sum of the two nodes' counts, with the flushes applied one after another (see "## Left out" for the script's overlapping flushes) |
| Observer.PagePassFlushesOnce | content.ts:189-200 | a page pass flushes at most once: one more page and the merged counts when a word was found, and only the record's creation otherwise |
| Escaping.EscapeRoundTrip | content.ts:224 | unescaping the escaped text gives the text back |
| Escaping.EscapedMarkup | content.ts:214-224 | corrected markup: every `<` in it opens or closes a censor span, two per censored word; a text without matches is only escaped |
| Escaping.MarkupInjection | content.ts:214-224 | as written: the text `<b>job` is handed to `innerHTML` as `<b>` followed by the censor span, which has three `<` where the corrected markup has two |

## Findings

| source | as written | input that shows it | evidently intended | confidence | as-written member | corrected member |
|---|---|---|---|---|---|---|
| content.ts:214-224 | the node's text goes into the markup for `innerHTML` unescaped, so a `<` or `&` in page text is parsed as markup | a text node whose data is `<b>job` (shown on the page as the characters `<b>job`) yields the markup `<b><span class="job-censor-anim">j*b</span>`, with a `<b>` that is not a censor tag | the text outside the matches stays text: `<` and `&` in it are escaped before the markup is assigned | high; not executed | Escaping.MarkupInjection | Escaping.EscapedMarkup |

The page model builds each rewritten node's span from the pieces (`Page.CensorSpan`). Each plain run becomes a text node holding that run unchanged. Escaping gives each run back on unescaping (`Escaping.EscapeRoundTrip`), so the escaped markup parses to these nodes for text that holds no U+0000 and no carriage return. The HTML parser drops U+0000 from body text and turns CR and CRLF into LF, and escaping `<` and `&` changes neither; see "## Left out". The rescan results (`Page.SecondPassIsQuiet`, `Observer.OwnMutationsAreQuiet`) are therefore stated for the corrected markup. Of the script as written they hold only for text without U+0000, `<` or `&`. With the markup as written, text containing `<` or `&` is turned into other nodes, and the model makes no claim about what the script then does with them.

## Left out

- HTML parsing by `innerHTML` (content.ts:224). The span's children are modelled as the escaped markup would produce them; see Findings. What the browser builds from markup as written that holds `<` or `&` is not modelled.
- The parser's removal of U+0000 and its CR/CRLF-to-LF normalisation (content.ts:224). The model's span keeps each plain run character for character. CR and LF are both separators, so the normalisation changes no word, only the span's exact text. Dropping U+0000 can join two runs into a pattern word: a text node `jo\u0000b work` becomes a span whose text child reads `job `, which the script's element-branch rescan (content.ts:246-257) then censors and counts again.
- Page.SecondPassIsQuiet: holds of the model's span. In the script it holds only for text without U+0000, `<` or `&`, because the parse of the unescaped markup can make new pattern words in three ways. Dropping U+0000 joins runs, as in the line above. A character reference is decoded: `work &#106;ob` becomes a span whose text child reads ` job`. A raw-text element swallows a wrapper: in `work <textarea>job` the wrapper around the second `j*b` is parsed inside the `textarea` as text. `textarea` is not a skipped element, so that text's `class="job-censor-anim"` gives the rescan the word `job`.
- Observer.OwnMutationsAreQuiet: holds of the model's span. In the script, the records its own spans cause can still lead the element-branch rescan (content.ts:246-257) to rewrite and count again when a rewritten text held U+0000, `<` or `&`. The three ways are the ones given under `Page.SecondPassIsQuiet`: U+0000 removal, character-reference decoding and raw-text elements.
- MetricsFold.UpdateKeepsConsistent: the record's counters are JavaScript numbers, which are doubles (content.ts:4-10). The additions `+=` and `(x || 0) + count` (content.ts:105, 112) are exact only while every value stays at most 2^53. The model's `int` never rounds, so in the script the equation `totalReplacements == sum(wordsReplaced)` is guaranteed only below that bound.
- Storage I/O (`@plasmohq/storage` get, set and watch). Storage is the `flag` and `stored` fields of the world. Each event runs to completion before the next starts.
- The race between unawaited `updateMetrics` calls in the callback (content.ts:243, 256). The callback starts each call without awaiting it. Each call awaits the flag read (content.ts:70, 92), then the metrics read (content.ts:96), and only then writes the record (content.ts:115). With storage answering in request order, every flush started by one callback therefore reads the record before any of them writes it, and the last write wins. Only the last flush's page and counts survive. The model applies the updates one after another.
- Observer.TwoTextRecords: its `Flushes(ca) + Flushes(cb)` more pages and the sum of both nodes' counts are the result with the two flushes applied one after another. In the script, when both nodes' maps are non-empty, both calls read the same record and the second write wins. So `pagesProcessed` grows by one and only the second node's counts are added.
- Examples.TwoTextNodesTwoFlushes: its `pagesProcessed == 2` and `job` count of 2 are the serialized result. In the script the record ends with `pagesProcessed == 1` and a `job` count of 1, for the reason in the line above.
- The boot race (content.ts:285-286). `startObserver` runs before `processPage` has finished, because `processPage` is not awaited. The model runs the page pass and then starts the observer. The records the pass causes are covered by `Observer.OwnMutationsAreQuiet`, which holds for any records.
- `processingTime` and the `LAST_UPDATED` timestamp (content.ts:93, 108, 116). These are clock reads. `window.location.href` is the world's `url` field.
- The `try`/`catch` paths (content.ts:117-119, 201-203). Storage failures are not modelled.
- `MutationObserver` delivery and scheduling. Records arrive as a list of added nodes. An added text node is found by its path in the current tree, and the model skips a text node that is no longer at that path under an element. The script does not: a text node removed together with its container keeps its `parentElement`, so the text branch (content.ts:239-244) still rewrites it and flushes its counts although it is off the page. The model does not count those.
- A missing `document.body`. The body is always an element node here. Node kinds other than text and element are one `Comment` case. Attributes are not modelled.
- The order of the page pass. `Page.RewriteTree` replaces all accepted nodes at once, where the script replaces them one by one in a `forEach`. Each replacement touches only its own leaf, so the results agree (`Page.RewriteAtSites`).
- UTF-16 code units. Strings are sequences of Unicode scalar values. `\b`, `/i` and the skip-list test depend only on ASCII (and the Kelvin sign for tag names), so surrogate pairs change nothing in the modelled behaviour.
- The style sheet's text and logging (content.ts:14-16, 160-177). Only the check-then-insert on the style id is modelled.
- popup.tsx. It is the settings and statistics page, which reads the metrics and writes the flag.
