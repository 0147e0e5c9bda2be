# A Dafny model of the JupyterLab accessibility checker's core

The extension scans every cell of an open notebook for accessibility
problems and lists them in a sidebar, with a red dot on each cell that has
any. This project models the decision logic of `src/index.ts` as pure
Dafny functions and proves properties of it:

- the colour analysis of images (`hexToRgb`, the bucket key, `determineTextColor`);
- the transparency count and score of `getImageTransparency`;
- the image checks of markdown text and of parsed HTML `<img>` elements;
- heading extraction, the heading-outline validator and the missing-h1 rule;
- the issue strings the checks produce, and how `applyVisualIndicator`
  decodes them into sidebar messages;
- the sidebar registry (`AltCellList`): `addCell`, `removeCell` and `showOnlyVisibleCells`;
- one run of `checkAllCells` and the "Add h1 Header" action.

Modules, one per file:

| module | file | models |
|---|---|---|
| `Wrappers` | wrappers.dfy | `Option` and `Result` |
| `JsText` | jstext.dfy | the JavaScript string primitives used: `trim`, `slice`, `split(" ")`, `parseInt(_, 16)` on bucket-key slices, decimal printing |
| `Color` | color.dfy | `hexToRgb`, the bucket quantization and the `#RRGGBB` bucket key |
| `TextContrast` | textcontrast.dfy | `determineTextColor` after text recognition, and the 21 fallback of its caller |
| `Transparency` | transparency.dfy | the alpha loop and the transparency score |
| `ImageScan` | imagescan.dfy | `checkMDNoAccessIssues`, `checkHtmlNoAccessIssues` over parsed images |
| `Cells` | cells.dfy | cells, and the text-cell and code-cell image checks |
| `Headings` | headings.dfy | the markdown and HTML heading regular expressions and the `h1Exists` flag |
| `Outline` | outline.dfy | the heading-outline validator |
| `Issues` | issues.dfy | the issue strings and the classification in `applyVisualIndicator` |
| `Registry` | registry.dfy | `AltCellList._cellMap`, `addCell`, `removeCell`, `showOnlyVisibleCells`, `applyVisualIndicator` |
| `SidebarList` | sidebarlist.dfy | the children of the sidebar's list element, and `removeCell`'s loop that takes a cell's wrappers out of it |
| `Notebook` | notebook.dfy | `checkAllCells` on its synchronous path, and `addMissingH1HeaderMarkdownCell` |

Some of the source's behaviour is surprising. The model keeps it as written
and states it as lemmas:

- In the markdown heading pattern `^(#+) \s*(.*)$`, the `\s*` also swallows
  line breaks. So `"# \n## b"` is a single level-1 heading with the text `## b`.
- `addCell` skips filling in an item only when an existing item's
  `textContent` equals the new message. An item's `textContent` always
  carries more text than its message, so the same message added twice is
  rendered twice. This is the first entry under "## Findings". The model
  keeps the guard as written: `Registry.ApplyVisualIndicator` and everything
  built on it fill in every message, repeats included. The intended guard
  is modelled alongside it as `Registry.AddCell` and
  `Registry.ApplyVisualIndicatorIntended`.
- `removeCell` walks the list's live `children` by index and removes the
  cell's wrapper whenever a child has the same `id`. Removing shifts the next
  child into the current index, where the scan skips it, and removing a node
  that is no longer a child throws before the cell's map entry is deleted.
  With the guard as written, repeated messages give one cell two children
  with one id, and two of them with a section header between, or three in a
  row, make `removeCell` throw. This is the second entry under "## Findings".
  `SidebarList` models the loop as written next to the intended removal;
  `Registry.RemoveCell` models the map as the intended removal leaves it.
- The heading message is cut from the issue string at fixed offsets. A
  two-digit level therefore produces a garbled message.

## Model

| member | source | states |
|---|---|---|
| Color.HexToRgb | src/index.ts:19-24 | a colour is produced exactly when all three two-character slices parse as hex; each channel then stays below 256 |
| Color.Quantize | src/index.ts:74 | the floored channel is a multiple of the bucket size and lies within one bucket below the input |
| Color.PackedDigits | src/index.ts:74 | `toString(16)` of the packed sum prints the marker digit 1, then two digits per channel |
| Color.BucketKeyDigits | src/index.ts:74 | the key of a read pixel is `#` followed by two upper-case hex digits for each quantized channel |
| Color.BucketKeyShape | src/index.ts:74 | every key of a read pixel has seven characters: `#` and six upper-case hex digits |
| Color.BucketKeyRoundTrip | src/index.ts:19-24 | `hexToRgb` of a pixel's bucket key gives back exactly its three quantized channels |
| Color.MissingPixelKey | src/index.ts:73-74 | an out-of-buffer read gives the key `#AN`, for which `hexToRgb` yields a NaN channel |
| TextContrast.PixelAtOffset | src/index.ts:72-73 | the pixel sampled at (x, y) is the RGB triple at byte offset `(y * width + x) * 4`, or undefined outside the buffer |
| TextContrast.BoxSampleCount | src/index.ts:70-77 | a word's inclusive box contributes (y1-y0+1)*(x1-x0+1) samples, none when the box is empty |
| TextContrast.TallyIsHistogram | src/index.ts:75 | the `colorCount` dictionary has one entry per distinct key, and each entry holds that key's number of occurrences |
| TextContrast.BestIndex | src/index.ts:79-80 | the chosen entry has a maximal count among the candidates, and every earlier candidate has a strictly smaller count, as a stable descending sort picks it |
| TextContrast.BackgroundForegroundRanking | src/index.ts:79-80 | the background is the earliest most frequent bucket; the text colour is the earliest most frequent among the rest, and is no more frequent than the background |
| TextContrast.CalculateContrast | src/index.ts:16-51 | the contrast is defined exactly when both keys parse; it is then the contrast of the parsed colours |
| TextContrast.DetermineTextColorSpec | src/index.ts:53-95 | rejects exactly when there are no words or a kept word breaks; otherwise the result is at most 21, at most every kept word's contrast, and equals 21 or one of them |
| TextContrast.FilteredWordsIgnored | src/index.ts:62 | words with confidence below 85 or with noise texts have no influence on the fold |
| TextContrast.TextContrastScore | src/index.ts:124-132 | the caller's score is 21 when the analysis rejects; otherwise it is the least of 21 and the contrasts of the kept words: at most each of them, and equal to 21 or to one of them |
| TextContrast.KeysParseUnlessOutside | src/index.ts:73-74 | keys of in-buffer pixels always parse; out-of-buffer reads give `#AN` |
| Transparency.CountNonOpaque | src/index.ts:174-182 | the alpha loop counts exactly the whole pixels whose alpha byte is below 255 |
| Transparency.Score | src/index.ts:185-186 | the score is NaN exactly for an empty buffer; otherwise it lies between 0 and 10 and equals 10 - 40 * count / length |
| Transparency.FlagIffOverTenPercent | src/index.ts:185-186 | the score is below 9 exactly when more than a tenth of the pixel slots are non-opaque |
| Transparency.AllOpaqueScoresTen | src/index.ts:174-186 | a fully opaque image scores 10 and is not flagged |
| Transparency.HalfTransparentScoresFive | src/index.ts:174-186 | an image with half of its pixels non-opaque scores 5 and is flagged |
| ImageScan.ImageAt | src/index.ts:226 | a match found at a position is a well-formed `![..](..)` image, all on one line, starting there |
| ImageScan.ImageAtComplete | src/index.ts:226 | wherever a well-formed image starts, the pattern finds a match there, with a `](` no later than the image's |
| ImageScan.MatchesFrom | src/index.ts:232-237 | the exec loop reports well-formed matches in increasing, non-overlapping order |
| ImageScan.MatchesLeftmost | src/index.ts:232-237 | the exec loop skips no image: its first report starts no later than any well-formed image at or after the search position |
| ImageScan.ImageUrls | src/index.ts:232-237 | every collected URL is non-empty and contains no `)` and no line break |
| ImageScan.ImageUrlsFirst | src/index.ts:232-237 | the first collected URL is that of the leftmost well-formed image, taken at its earliest `](`, unless that URL is empty |
| ImageScan.HasEmptyAltImageSpec | src/index.ts:225-241 | the empty-alt test holds exactly when some position starts `![](`, a non-`)` character, and later a `)` |
| ImageScan.HtmlAltIssuesCount | src/index.ts:203-208 | the HTML check pushes one `Alt` per image whose alt attribute is missing or empty |
| ImageScan.HtmlAltCount | src/index.ts:203-216 | the HTML check's issues hold exactly one `Alt` per image without alt text, as long as the image analyses never return `Alt` |
| ImageScan.CheckHtml | src/index.ts:195-220 | the HTML check's issues are the alt issues, then every image's transparency result, then every contrast result, in image order |
| ImageScan.MdReport | src/index.ts:243-249 | the markdown report is the alt issue, then every URL's transparency result, then every contrast result, in URL order |
| ImageScan.MdAltAtMostOnce | src/index.ts:239-241 | however many images lack alt text, the markdown check reports `Alt` at most once |
| ImageScan.MarkdownCellIssues | src/index.ts:260-265 | a text cell's issues are the HTML check's, followed by the markdown check's |
| ImageScan.EmptyAltExample | src/index.ts:225-241 | `![](pic.png)` raises the alt issue and collects `pic.png` |
| ImageScan.AltPresentExample | src/index.ts:225-241 | `![photo](pic.png)` raises no alt issue and collects `pic.png` |
| Cells.CellAltCount | src/index.ts:255-292 | a markdown cell reports one `Alt` per source `<img>` without alt text plus one when its text holds an empty-alt image; a code cell one per output `<img>` without alt text; a raw cell none |
| Headings.MdMatchAt | src/index.ts:315 | a markdown match is a line start, the whole run of hashes, a space, whitespace, and the rest of the line; the level is the length of the hash run |
| Headings.MdMatchComplete | src/index.ts:315 | every well-formed markdown heading match is exactly the match the pattern finds at its start |
| Headings.MdMatchesFrom | src/index.ts:319-323 | the markdown exec loop reports well-formed matches in increasing, non-overlapping order |
| Headings.MdMatchesLeftmost | src/index.ts:319-323 | the markdown exec loop skips no heading: its first report starts no later than any well-formed markdown heading match at or after the search position |
| Headings.MdHeading | src/index.ts:320-321 | a markdown heading's level equals its hash count, and its text is trimmed and holds no line break |
| Headings.HtmlMatchAt | src/index.ts:316 | an HTML match is `<h`, digits, `>`, text on one line, then the first closing tag with the same digits |
| Headings.HtmlMatchComplete | src/index.ts:316 | wherever a well-formed HTML heading starts, the pattern finds one there, with the same digits and a closing tag no later than its |
| Headings.ClosingFrom | src/index.ts:316 | the lazy capture stops at the first closing tag on the line |
| Headings.ClosingFromComplete | src/index.ts:316 | the lazy capture finds a closing tag no later than any closing tag on the same line, so finding none means the line has none |
| Headings.HtmlMatchesFrom | src/index.ts:325-330 | the HTML exec loop reports well-formed matches in increasing, non-overlapping order |
| Headings.HtmlMatchesLeftmost | src/index.ts:325-330 | the HTML exec loop skips no heading: its first report starts no later than any well-formed HTML heading match at or after the search position |
| Headings.HtmlHeading | src/index.ts:326-327 | an HTML heading's level is the decimal value of the captured digits, and its text is trimmed |
| Headings.H1ExistsSpec | src/index.ts:319-330 | the `h1Exists` flag ends true exactly when it started true or some heading has level 1 |
| Headings.MarkdownHeadingShape | src/index.ts:315-323 | every markdown heading sits at a line start, with exactly its level in hashes followed by a space |
| Headings.NoMarkdownWithoutHash | src/index.ts:315-323 | a text without `#` has no markdown heading |
| Headings.NoHtmlWithoutAngle | src/index.ts:316-330 | a text without `<` has no HTML heading |
| Headings.HashSpaceOpensWithH1 | src/index.ts:315-323 | a text starting with `# ` opens with a level-1 heading, and sets `h1Exists` |
| Headings.TitleExample | src/index.ts:315-323 | `# Title` is one level-1 heading titled `Title` |
| Headings.NoSpaceExample | src/index.ts:315 | `#Title` is no heading |
| Headings.EmptyHeadingSwallowsNextLine | src/index.ts:315-323 | `# \n## b` is a single level-1 heading with the text `## b` |
| Headings.HtmlExample | src/index.ts:316-330 | `<h2>Intro</h2>` is one level-2 heading titled `Intro` |
| Outline.ErrorAt | src/index.ts:338-353 | an error names the heading's cell and level, and always expects a different level |
| Outline.ValidateOutline | src/index.ts:333-356 | the validator's loop reports exactly the verdicts of every heading in order |
| Outline.FirstNeverFlagged | src/index.ts:333-356 | the first heading is never flagged, so there are fewer errors than headings |
| Outline.NoErrorsIff | src/index.ts:333-356 | an outline is accepted exactly when each heading goes at most one level deeper than its predecessor and never above the first |
| Outline.OutlineErrorsExtend | src/index.ts:333-356 | appending headings only appends errors |
| Outline.ExpectedLevels | src/index.ts:338-352 | a skip error expects one below the predecessor; an out-of-order error expects the first level |
| Outline.AcceptedExamples | src/index.ts:333-356 | h1 h2 h3 and h1 h2 h1 are accepted |
| Outline.RejectedExamples | src/index.ts:333-356 | h1 h3 is a skip, and h2 h1 goes above the first heading |
| Outline.PrecedenceExamples | src/index.ts:338-352 | the skip check comes before the first-level check, and the first level is never updated |
| Issues.HeadingRoundTrip | src/index.ts:422-424 | a heading error with single-digit levels decodes to "expecting h<expected>, got h<current>" |
| Issues.HeadingAlwaysReported | src/index.ts:422-424 | every heading issue is classified as a heading and always yields a message |
| Issues.TwoDigitHeadingMessage | src/index.ts:422-424 | with a two-digit level, the fixed slices produce "expecting  h, got h1" |
| Issues.ContrastFlagIff | src/index.ts:425-430 | when the number formatting reads the score back, a contrast issue is reported exactly when its score is below 4.5, and carries the `toFixed(2)` rendering with `:1` |
| Issues.TransparencyFlagIff | src/index.ts:437-444 | when the number formatting reads the score back (and `NaN` as `NaN`), a transparency issue is reported exactly when its score is below 9, with the percentage (10 - score) * 10; NaN is never reported |
| Issues.FixedIssues | src/index.ts:431-436 | `Alt` and `h1 header` are always reported with their fixed messages |
| Issues.DecodeShape | src/index.ts:420-445 | every message the indicator adds is one of the two fixed messages, a heading message of at most 36 characters, a contrast message whose last field holds no space, or a transparency message ending in `%)` |
| Issues.ImageTransparencyReported | src/index.ts:174-186 | an image's transparency is reported exactly when its buffer is non-empty and more than a tenth of its pixels are non-opaque |
| Issues.FailedContrastNotReported | src/index.ts:124-130 | when no word is found or a kept word breaks the analysis, no contrast issue is reported |
| Registry.Control | src/index.ts:889-894 | every message gets a non-empty control next to it |
| Registry.TextContent | src/index.ts:877 | a filled-in item reads as more than its message, starting with it; an empty wrapper reads as nothing |
| Registry.AddCellAsWritten | src/index.ts:871-885 | the item is appended to the cell's list (created when absent), and the other cells are untouched |
| Registry.RepeatedMessageRenderedTwice | src/index.ts:871-889 | the written textContent guard never matches a filled-in item, so the same message added twice is rendered twice |
| Registry.NoDuplicateAmongLongerItems | src/index.ts:876-880 | the written guard matches nothing among filled-in items whose messages are no shorter than the new one |
| Registry.AddCell | src/index.ts:871-885 | with the intended guard, the item is appended to the cell's list (created when absent) and the other cells are untouched; it is filled in exactly when no item of the list already shows its message |
| Registry.AddCellKeepsFirstShown | src/index.ts:871-885 | adding an item keeps the invariant that an item is filled in exactly when no earlier item carries its message |
| Registry.RepeatedMessageRenderedOnce | src/index.ts:871-889 | the same message added twice to a fresh cell is filled in once, and leaves an empty wrapper behind it |
| Registry.RemoveCell | src/index.ts:1060-1062 | the cell's list is dropped and every other list is kept, as when the removal loop completes |
| Registry.RemoveUndoesAdd | src/index.ts:1060-1062 | removing a cell undoes anything added to it, under either guard |
| SidebarList.WrapperId | src/index.ts:731-732 | a wrapper's id is `cell-`, the cell's id, `_` and the message, so it ends in the message |
| SidebarList.RemoveChild | src/index.ts:1049 | `removeChild` removes exactly one child, keeps every other, and fails exactly when the node is not a child |
| SidebarList.RemoveWrappers | src/index.ts:1035-1053 | what the removal is for: a child is left exactly when it was there and is none of the cell's wrappers |
| SidebarList.RemoveWrappersKeepsOrder | src/index.ts:1035-1053 | the children left keep their order |
| SidebarList.RemovableRemoved | src/index.ts:1040-1053 | when each wrapper's id belongs to no child but it and the wrappers removed before it, the loop as written never throws and leaves exactly the intended children |
| SidebarList.ScanRemovesOnly | src/index.ts:1045-1050 | one scan for a wrapper whose id no other child carries removes that wrapper and nothing else, without throwing |
| SidebarList.IntendedGuardKeepsRemovable | src/index.ts:872-898 | with the intended guard, a repeated message's wrapper joins the map entry but not the list, and the cell's wrappers stay removable |
| SidebarList.RepeatBreaksRemovable | src/index.ts:882-897 | with the guard as written, a repeated message's wrapper joins the list too, and the cell's wrappers are no longer removable |
| SidebarList.SeparatedRepeatThrows | src/index.ts:1044-1053 | two wrappers of one message with a section header between: the loop removes the first, skips the header, and throws removing the first again; the header and the second wrapper stay |
| SidebarList.StuckAfterThrow | src/index.ts:1037-1061 | after that throw every later removal of the cell throws at the same point and changes nothing |
| SidebarList.AdjacentRepeatRemoved | src/index.ts:1044-1053 | two adjacent wrappers of one message are both removed without a throw |
| SidebarList.TripleRepeatThrows | src/index.ts:1044-1053 | three adjacent wrappers of one message throw |
| Registry.CellExists | src/index.ts:1099-1105 | the inner loop finds the id exactly when some open cell has it |
| Registry.ShowOnlyVisibleCells | src/index.ts:1091-1109 | the prune keeps exactly the registered cells that are open, with their lists unchanged |
| Registry.VisibleIdempotent | src/index.ts:1091-1109 | pruning twice prunes nothing more |
| Registry.Decoded | src/index.ts:420-445 | the decoded messages are all non-empty, and there are none exactly when no issue yields a message |
| Registry.AddMessagesContents | src/index.ts:420-445 | adding messages in turn appends one item per message, in order, under either guard |
| Registry.AddCellAsWrittenKeepsGuard | src/index.ts:872-886 | the written guard keeps the invariant that an item is filled in exactly when no earlier item of its list reads as its message |
| Registry.AddMessagesGuarded | src/index.ts:420-445 | adding messages in turn through the written guard keeps that invariant |
| Registry.TextContentApart | src/index.ts:877 | a filled-in item, which reads as its message, its control and its guideline link, never reads as any message the indicator adds |
| Registry.DecodedReadApart | src/index.ts:420-445 | no message decoded for a cell, once filled in, reads as a message decoded for it |
| Registry.GuardedReadApartAllShown | src/index.ts:876-888 | when no filled-in message reads as another, the written guard never matches and every item is filled in |
| Registry.AddMessagesFirstShown | src/index.ts:871-885 | corrected half: adding messages in turn through the intended guard keeps each message filled in only at its first occurrence |
| Registry.ApplyVisualIndicator | src/index.ts:402-469 | the cell's list becomes exactly the decoded messages, every one of them filled in, repeats included; the list and the indicator remain exactly when there is a message; other cells are unchanged |
| Registry.ResetEntries | src/index.ts:409-467 | the cell's list is replaced by one item per message, kept under the guard's invariant, and removed when there is no message; other cells are kept |
| Registry.RepeatedAltShownTwice | src/index.ts:203-208 | a cell whose issues hold `Alt` twice (two images without alt text) shows the missing-alt message twice |
| Registry.ApplyVisualIndicatorIntended | src/index.ts:871-885 | corrected half: with the intended guard, the cell's list becomes the decoded messages, each filled in at its first occurrence only |
| Registry.RepeatedAltShownOnce | src/index.ts:871-885 | corrected half: with the intended guard, a cell whose issues hold `Alt` twice shows the missing-alt message once, followed by an empty wrapper |
| Registry.ApplyKeepsOthers | src/index.ts:402-469 | applying a cell's issues leaves the other cells' lists and indicators as they were |
| Registry.ApplyIgnoresOwnState | src/index.ts:410 | the result does not depend on the cell's previous list or indicator |
| Registry.ApplyIdempotent | src/index.ts:402-469 | applying the same issues twice is the same as applying them once |
| Registry.ResetThenApply | src/index.ts:358-362 | clearing a cell first changes nothing about the application that follows |
| Registry.ClearRemoves | src/index.ts:402-469 | clearing with no issues removes the cell's list and indicator, and nothing else |
| Notebook.Located | src/index.ts:319-328 | each heading is pushed with its level, text and cell |
| Notebook.LastErrorOf | src/index.ts:358-362 | the last error against a cell is one of the errors, and there is none exactly when no error names the cell |
| Notebook.ErrorMessage | src/index.ts:422-424 | each heading error decodes to exactly one message |
| Notebook.ApplyErrorsEffect | src/index.ts:358-362 | after the errors are applied, a cell with errors shows only its last error's message and carries the indicator; other cells are as they were |
| Notebook.FirstMarkdown | src/index.ts:373-378 | the first markdown cell, or none when no cell is markdown |
| Notebook.PassCollects | src/index.ts:299-366 | the enabled pass collects every heading of every markdown cell in order, and sets `h1Exists` exactly when one has level 1; the disabled pass collects nothing |
| Notebook.LastVisitApplies | src/index.ts:333-362 | validation re-runs after every cell, so the final state applies the whole notebook's errors |
| Notebook.HeadingErrorsShown | src/index.ts:295-383 | every open cell with an outline error ends showing only its last error's message, with the indicator on, unless the notebook has no h1 and the cell is its first markdown cell |
| Notebook.SingleDigitErrorMessage | src/index.ts:422-424 | with single-digit levels the shown message reads "expecting h<expected>, got h<current>" |
| Notebook.RuleSpares | src/index.ts:369-380 | the missing-h1 rule leaves the entries and the marked flag of every cell but the first markdown cell unchanged, and of every cell when an h1 was found |
| Notebook.MissingH1Shown | src/index.ts:369-380 | without an h1, the open first markdown cell ends showing only the missing-h1 message, with the indicator on |
| Notebook.H1PresentRuleIdle | src/index.ts:369-380 | with an h1 present, the enabled run's missing-h1 rule changes nothing |
| Notebook.DisabledPassClears | src/index.ts:364-366 | the disabled pass leaves no entry and no indicator on any cell of the notebook, and nothing else changes |
| Notebook.DisabledRunClears | src/index.ts:364-382 | after a disabled run, every cell other than the first markdown one has no entry and no indicator |
| Notebook.OnlyOpenCellsListed | src/index.ts:1091-1109 | after a run, every cell left in the registry belongs to the open notebook |
| Notebook.AddMissingH1 | src/index.ts:813-821 | a blank input is refused; otherwise a markdown cell `# ` + the trimmed text is inserted at index 0, and the other cells follow unchanged |
| Notebook.InsertedH1Satisfies | src/index.ts:942-954 | after the insertion, the notebook holds an h1 and the next enabled run finds it |
| JsText.JoinFields | src/index.ts:425-444 | `split(" ")` of pieces joined by single spaces gives back the pieces, when no piece holds a space |
| JsText.DecimalRoundTrip | src/index.ts:343-351 | printing a level in decimal and reading it back gives the level |

## Left out

- Text recognition (Tesseract), image loading, canvases and the WCAG
  luminance formula are not modelled. Recognised words and the `ImageData`
  are inputs. The contrast of two colours is a function parameter.
- Number formatting and parsing are abstract. The default conversion,
  `toFixed(2)` and `Number` are parameters (`Issues.NumberFormat`). The
  lemmas about contrast and transparency issues assume only what they need
  at the one score involved (`Issues.ShowsAt`, `Issues.ShowsScore`): that
  `Number` reads back the printed score, that both renderings use number
  characters, and that `"NaN"` reads as `NaN`. Doubles are modelled as
  exact reals.
- The HTML parser is abstract. `DOMParser` and `querySelectorAll("img")` become the list of
  `<img>` elements with their `src` and `alt`. So do a code cell's rendered
  output, and the images in the markdown source that the HTML check sees.
- The image analyses (`getImageTransparency`, `getTextContrast`) enter the
  checks as functions from URL to issue string. Their fallbacks when no
  canvas context is available are not modelled: `"10 transp"` at
  src/index.ts:166 and 190, and `"21 contrast 21.00:1"` at src/index.ts:119
  and 135.
- `checkAllCells` with `firstTime` set is not modelled. There, the
  asynchronous image checks interleave with the heading pass. Only the
  synchronous path is modelled.
- The DOM is not modelled: the sidebar's element tree, styling, the red
  indicator element, scrolling, and the dropdown's toggle. The sidebar is
  modelled as the registry plus the set of cells carrying an indicator.
- ImageScan.ImageUrls: its contract states the shape of every collected
  URL. With `ImageUrlsFirst` and `MatchesLeftmost`, the model also pins down
  the first URL and shows that the scan skips no image before each report.
  It does not characterise the whole list of URLs without reference to the
  scan itself.
- JsText.ParseHex: models `parseInt(_, 16)` only on the two-character slices
  of a bucket key. The leading whitespace, sign and `0x` prefix that
  `parseInt` also accepts never occur there and are not modelled.
- Registry.TextContent: leaves out the dropdown's summary paragraph, so the
  text is the message, the control's text and the link text. The proofs use
  four facts about it: it starts with the message; it is longer; the
  character at offset |message| + |control| + 4 is a space; its last
  character is `s`. All four hold for the source's text too. There the
  summary follows the control, and every summary text (src/index.ts:841-857)
  begins with "Your ", whose fifth character is a space. The link comes after
  the summary (src/index.ts:864-865), and every link text ends in
  "guidelines".
- Registry.RemoveCell: models the map after a removal loop that completes.
  The loop as written throws on some repeated wrappers, and then the cell's
  entry is not deleted and the list keeps some of its wrappers. That path is
  modelled in `SidebarList` and listed under "## Findings". The registry
  functions built on `RemoveCell` (`ResetEntries`, `ApplyVisualIndicator`)
  do not model the throw.
- The category flags `_headerErrors` and `_errorCategoryMap` are left out,
  and so is the moment each section header is appended
  (`createHeaderErrorSection` and its siblings). `SidebarList` treats a
  section header as a child whose id is not a wrapper id. A header matters
  when it sits between two wrappers with the same id.
- The `try`/`catch` around `cell.model.id` in `applyVisualIndicator` is left
  out. Cell ids are always present in the model.
- The notebook's cell list, and the new cell's id, are parameters of the
  model. They are not read from the notebook tracker.
- `parseInt` of an HTML heading's digits is exact: levels of any size are
  kept, where JavaScript would lose precision beyond 2^53.
- `lib/index.js` (the compiled copy of the source) and the package stubs
  are not part of this model.

## Findings

| source | as written | input that shows it | evidently intended | confidence | as-written member | corrected member |
|---|---|---|---|---|---|---|
| src/index.ts:871-885 | `addCell` sets `add = false` only when an existing wrapper's whole `textContent` equals the new message. That text is the message followed by the control and the dropdown text, so it is always longer, and the guard never matches. | A code cell whose output holds two `<img>` elements without alt text. Its issues hold `"Alt"` twice, and "Cell Error: Missing Alt Tag" is rendered twice. | The comment at src/index.ts:873 says that an error already in the map is not added again: a message the cell already shows is not rendered a second time. | medium, not executed | Registry.RepeatedAltShownTwice | Registry.ApplyVisualIndicatorIntended |
| src/index.ts:1044-1061 | `removeCell` iterates the live `children` by index and calls `removeChild(btn)` whenever a child's id equals `btn.id`. After a removal the next child shifts into the current index and is skipped. If a later child has the same id, `removeChild(btn)` runs again on a node that is no longer a child, and the DOM throws `NotFoundError` before `_cellMap.delete`. | A code cell whose output has two `<img>` elements without alt text, checked first in the session. The list becomes wrapper, "Alt Text Errors" header, wrapper, all for "Cell Error: Missing Alt Tag". The next check of that cell throws in `removeCell`, called at src/index.ts:410 outside any `try`, and every later one does too. | Every wrapper of the cell leaves the list, every other child stays, and the map entry is deleted. With the intended guard of the first row, no two of a cell's wrappers share an id, and the loop as written does exactly this. | medium, not executed | SidebarList.SeparatedRepeatThrows | SidebarList.RemovableRemoved |
