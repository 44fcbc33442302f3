# PDF stitcher core, modelled in Dafny

The system turns the pages of a PDF document into a few long images. Pages
`1..totalPages` are dealt out, in order, into at most `splitCount` groups of
nearly equal size. Each group's pages are rendered with pdf.js and stacked
on one canvas, vertically or horizontally, each centred, with an optional
gap between pages and an optional grey border around each. Each canvas is
encoded as a PNG (high quality) or JPEG (normal) data URL. Progress is
reported to a callback as the groups are processed, and the images can then
be packed into a ZIP archive with numbered entry names. A small
internationalisation store supplies the interface texts in English or
Chinese and fills `{name}` placeholders in them.

The model has seven modules:

- `Common`: `Option`, `Result`, `Min`, `StartsWith`.
- `Decimal`: the decimal spelling of numbers used in messages and entry
  names, with its round trip.
- `Partition`: the partition loop of `processPDF` (`PartitionPages`, a
  method with the source's two nested loops), and the function `Groups`
  that specifies it.
- `Layout`: the stitching loop (`Stitch`), and the function `Layout` that
  specifies it. The canvas is its size plus the drawing commands issued on
  it, in order. Pixels are not modelled.
- `Pipeline`: the quality-dependent constants, the status reports and the
  group loop (`ProcessPdf`, `ProcessGroups`, `ProcessGroup`, `RenderGroup`,
  `StitchGroup`). The page renderer and the canvas encoder enter as function
  parameters. The predicate `Reported` states the complete outcome of a run:
  - If every page renders, the result is one image per group, in order.
    The reports are rendering and stitching for each group, then done.
  - Otherwise the run fails with the error of the lowest-numbered failing
    page. The reports stop after the failing group's rendering report and
    end with an error report.
- `Archive`: the entry list `generateZip` hands to the archive library:
  names, extensions and base64 payloads.
- `I18n`: `formatString`, the message tables, `t` with its fallback to the
  key, and the store (a class whose one field is `lang`, Chinese at start,
  changed by `setLang`).

Progress is not monotone, and `Pipeline.ProgressRegressesBetweenGroups`
proves it for the code as written. Rendering group `i` reports
`i/n * 50`. Stitching it reports `50 + i/n * 40`. So after a group is
stitched, rendering the next one reports a smaller value. The intent behind
the two formulas is not evident from the code, so the model keeps them as
written.

## Model

| member | source | states |
|---|---|---|
| Decimal.NatToString | src/utils/pdfProcessor.ts:88 | `${i + 1}`: a non-empty string of decimal digits without a leading zero |
| Decimal.DecimalRoundTrip | src/utils/pdfProcessor.ts:88 | reading the decimal spelling of n back gives n |
| Decimal.NatToStringInjective | src/utils/pdfProcessor.ts:180 | different numbers are spelled differently |
| Decimal.IntToString | src/store/i18n.ts:92 | `String(n)` of a whole number is non-empty, starts with a minus sign exactly when n is negative, its digits (after the sign) read back as \|n\|, and they have no leading zero |
| Decimal.SignedRoundTrip | src/store/i18n.ts:92 | the digits after the minus sign of a negative number's spelling read back as its magnitude |
| Partition.PartitionPages | src/utils/pdfProcessor.ts:58-75 | the groups are `Groups(totalPages, splitCount)`: there are min(splitCount, totalPages) of them; group i is the contiguous ascending run `Group(i)` of `GroupSize(i) > 0` pages; with splitCount > 0 they hold pages 1..totalPages in order |
| Partition.SharesAddUp | src/utils/pdfProcessor.ts:58-59 | splitCount even shares plus the extra pages make totalPages, and fewer than splitCount groups get an extra page |
| Partition.GroupStartClosedForm | src/utils/pdfProcessor.ts:62-71 | group i starts after i * base + min(i, extra) pages |
| Partition.GroupStartBound | src/utils/pdfProcessor.ts:64-71 | every requested group ends within the document, and all of them together take exactly totalPages pages |
| Partition.NonEmptyGroups | src/utils/pdfProcessor.ts:65-74 | requested group i receives a page exactly when i < totalPages, so the groups dropped are exactly the excess ones |
| Partition.ConcatAllGroups | src/utils/pdfProcessor.ts:61-71 | the first m groups laid end to end are pages 1..GroupStart(m), in order |
| Partition.KeptGroupsCover | src/utils/pdfProcessor.ts:72-75 | the kept groups, the first min(splitCount, totalPages), end exactly at page totalPages |
| Partition.GroupsCoverPages | src/utils/pdfProcessor.ts:58-75 | with splitCount > 0, flattening the groups gives exactly [1, ..., totalPages] |
| Partition.BalancedSizes | src/utils/pdfProcessor.ts:58-65 | every kept group has at least floor(totalPages/splitCount) and at most one more pages, an earlier group is never smaller than a later one, and two sizes differ by at most one |
| Partition.GroupsAt | src/utils/pdfProcessor.ts:61-75 | kept group g is requested group g, of its requested size, which is positive |
| Layout.MaxAcross | src/utils/pdfProcessor.ts:111 | `Math.max(...)` of the cross extents: no page exceeds it and some page attains it |
| Layout.Stitch | src/utils/pdfProcessor.ts:110-159 | the loop builds exactly `Layout(...)`: the canvas of max cross extent and summed length plus (n - 1) gaps, the white fill, then each page drawn at its placement and, with borders, stroked there |
| Layout.OffsetClosedForm | src/utils/pdfProcessor.ts:121-133 | page k starts at the sum of the earlier pages' extents plus k gaps |
| Layout.StackEnd | src/utils/pdfProcessor.ts:112-133 | the running offset after the last page is the canvas length plus one gap, so the last page ends at the canvas edge |
| Layout.OffsetsSeparated | src/utils/pdfProcessor.ts:133 | a later page starts at least one gap after an earlier page ends |
| Layout.PlacedInsideCanvas | src/utils/pdfProcessor.ts:121-158 | every placed rectangle has the page's size, lies inside the canvas, and leaves equal space on both sides across the stacking axis |
| Layout.PlacementsDisjoint | src/utils/pdfProcessor.ts:121-158 | along the stacking axis, page j ends a gap before page k starts for j < k |
| Layout.PagesFillCanvas | src/utils/pdfProcessor.ts:111-115 | pages with positive sides give a canvas with positive sides |
| Layout.SinglePage | src/utils/pdfProcessor.ts:111-115 | with one page the canvas is the page's size (no gap added) and the page is drawn at the origin |
| Layout.BordersOnPages | src/utils/pdfProcessor.ts:122-131 | with borders the commands alternate: draw page t at its placement, then stroke that same rectangle in gray-200 with the configured width; without borders only the draws |
| Layout.HorizontalMirrorsVertical | src/utils/pdfProcessor.ts:135-158 | the horizontal branch is the vertical branch on transposed pages, mirrored in the diagonal |
| Pipeline.QualityTiers | src/utils/pdfProcessor.ts:78-81 | scale 2 and 1.5, `image/png` and `image/jpeg`, quality 1.0 and 0.8, border width 4 and 2, gap 40 and 20 when `gap` is set and 0 otherwise |
| Pipeline.ProgressLog | src/utils/pdfProcessor.ts:83-104 | the reports for the first m groups number two per group |
| Pipeline.ProgressLogAt | src/utils/pdfProcessor.ts:83-104 | report 2i is the rendering report of group i, report 2i + 1 its stitching report |
| Pipeline.RenderingStatus | src/utils/pdfProcessor.ts:85-89 | the report made before rendering group i of n; its range is `Pipeline.ProgressRange`, its growth `Pipeline.ProgressAdvances` |
| Pipeline.StitchingStatus | src/utils/pdfProcessor.ts:100-104 | the report made before stitching group i of n; its range is `Pipeline.ProgressRange`, its growth `Pipeline.ProgressAdvances`, its relation to the next rendering report `Pipeline.ProgressRegressesBetweenGroups` |
| Pipeline.ProgressRange | src/utils/pdfProcessor.ts:85-104 | for every group i < n, the last one and n = 1 included, the rendering report lies in [0, 50), the stitching report in [50, 90), and stitching a group reports more than rendering it |
| Pipeline.FractionBelowOne | src/utils/pdfProcessor.ts:87 | the fraction i/n of groups done lies in [0, 1) |
| Pipeline.FractionMono | src/utils/pdfProcessor.ts:87 | the fraction of groups done grows with the group index |
| Pipeline.ProgressAdvances | src/utils/pdfProcessor.ts:85-104 | for an earlier group i < j < n, both the rendering and the stitching report are smaller than group j's |
| Pipeline.ProgressRegressesBetweenGroups | src/utils/pdfProcessor.ts:87-102 | rendering group i + 1 reports less than stitching group i did |
| Pipeline.PageFailure | src/utils/pdfProcessor.ts:93-97 | no failure exactly when every page renders; otherwise the failing page is the first page in order that does not render |
| Pipeline.NoGroupFailure | src/utils/pdfProcessor.ts:83-97 | the group loop meets no failing page exactly when every page of every group renders |
| Pipeline.GroupFailureIsPageFailure | src/utils/pdfProcessor.ts:83-97 | the first failure met group by group is the first failure of all pages laid end to end |
| Pipeline.FailureIsLowestFailingPage | src/utils/pdfProcessor.ts:58-97 | for the partition, the run fails exactly when some page fails to render, and then on the lowest-numbered failing page |
| Pipeline.GroupImages | src/utils/pdfProcessor.ts:83-163 | one image per group |
| Pipeline.GroupImagesAt | src/utils/pdfProcessor.ts:83-163 | image g is the image stitched from group g's pages |
| Pipeline.ImagesStep | src/utils/pdfProcessor.ts:83-163 | the images of the first i + 1 groups are those of the first i followed by group i's |
| Pipeline.KeepImage | src/utils/pdfProcessor.ts:163 | pushing the image stitched from the next group's pages keeps the list equal to the images of the groups done |
| Pipeline.FailureAt | src/utils/pdfProcessor.ts:83-97 | when the groups before i all render and group i fails, the run's first failure is group i's first failing page |
| Pipeline.RenderGroup | src/utils/pdfProcessor.ts:91-97 | the rendered canvases when every page renders, else the error of the first page that fails |
| Pipeline.StitchGroup | src/utils/pdfProcessor.ts:106-161 | the data URL of the canvas stitched with the configured direction, gap and border, encoded in the configured format |
| Pipeline.ProcessGroup | src/utils/pdfProcessor.ts:84-162 | if every page renders: the rendering and stitching reports for group i of n, and the stitched image; otherwise only the rendering report and the first failing page's error |
| Pipeline.ProcessGroups | src/utils/pdfProcessor.ts:83-171 | the outcome and reports are those `Reported` describes: all images in group order, the per-group reports and then done; or the lowest failing page's error, the reports up to that group's rendering, and an error report |
| Pipeline.ProcessPdf | src/utils/pdfProcessor.ts:47-171 | `processPDF` partitions the pages and then behaves as `Reported` describes for that partition |
| Archive.ZipEntries | src/utils/pdfProcessor.ts:174-181 | one entry per image, in order; entry i is named filename-(i+1).ext and carries the text after the data URL's first comma |
| Archive.Extension | src/utils/pdfProcessor.ts:178 | `png` for a data URL starting `data:image/png`, else `jpg`; what this means for the stitcher's images is `Archive.ExtensionMatchesFormat` |
| Archive.Split | src/utils/pdfProcessor.ts:179 | `split(',')`: at least one field, more than one exactly when the text holds a comma, and no field holds a comma |
| Archive.Payload | src/utils/pdfProcessor.ts:179 | field 1 of the split exists exactly when the data URL holds a comma, and holds no comma; `Archive.PayloadOfDataUrl` says it is the encoder's output |
| Archive.EntryName | src/utils/pdfProcessor.ts:180 | `filename-(index+1).ext`; that different indices give different names is `Archive.EntryNamesDistinct` |
| Archive.SplitNoComma | src/utils/pdfProcessor.ts:179 | text without a comma splits into itself alone |
| Archive.SplitAtComma | src/utils/pdfProcessor.ts:179 | `split(',')` of `a,b`, where a holds no comma, is a followed by the fields of b |
| Archive.DigitsBeforeDot | src/utils/pdfProcessor.ts:180 | two digit runs, each followed by a dot and an extension, that spell the same text are the same run: the index in a name ends at the first dot |
| Archive.EntryNamesDistinct | src/utils/pdfProcessor.ts:180 | two different indices give different entry names, whatever the two extensions |
| Archive.ZipEntryNamesDistinct | src/utils/pdfProcessor.ts:177-181 | the entries of one archive have pairwise different names |
| Archive.ExtensionMatchesFormat | src/utils/pdfProcessor.ts:79-178 | the data URL `toDataURL` gives for a canvas gets `png` exactly when it is high quality, the canvas has pixels and the browser serialises it, else `jpg`; in the other cases the URL is `data:,`, with an empty payload |
| Archive.StitchedImageEntry | src/utils/pdfProcessor.ts:79-180 | the image stitched from page canvases with positive sides, as `drawImage` demands, gets `png` exactly at high quality when the browser serialises the canvas, and `jpg` otherwise; its payload is the encoder's comma-free output, or empty when the canvas could not be serialised (`data:,`) |
| Archive.PayloadOfDataUrl | src/utils/pdfProcessor.ts:161-179 | the payload taken from the data URL of a canvas with pixels that the browser serialises is exactly the encoder's base64 output |
| I18n.ArgText | src/store/i18n.ts:92 | the text `String(args[key] or '')` gives is empty exactly when the key is missing or its value is falsy; otherwise it is the value's text |
| I18n.WordRun | src/store/i18n.ts:92 | the longest run of `\w` characters at the start of the text |
| I18n.FormatString | src/store/i18n.ts:91-93 | `formatString`; characterised by `I18n.UnchangedIffNoPlaceholder`, `I18n.PlaceholderReplaced`, `I18n.CopiedVerbatim` and `I18n.SinglePass` |
| I18n.PlaceholderLength | src/store/i18n.ts:92 | a match at the start is a brace, then one or more word characters and nothing else, then a closing brace |
| I18n.PlaceholderAtStart | src/store/i18n.ts:92 | the scanner matches at the start exactly the placeholder `{\w+}` there |
| I18n.NoPlaceholderUnchanged | src/store/i18n.ts:91-93 | a template with no `{\w+}` placeholder comes back unchanged, whatever the arguments |
| I18n.BlankingShortens | src/store/i18n.ts:91-93 | with no arguments the output is never longer than the template, and strictly shorter when the template holds a placeholder |
| I18n.UnchangedIffNoPlaceholder | src/store/i18n.ts:91-93 | with no arguments the template comes back unchanged exactly when it holds no placeholder |
| I18n.PlaceholderReplaced | src/store/i18n.ts:92 | a leading placeholder becomes the argument's text, followed by the rest formatted |
| I18n.CopiedVerbatim | src/store/i18n.ts:92 | any character that opens no placeholder, a brace included, is copied in place and scanning resumes after it |
| I18n.SinglePass | src/store/i18n.ts:92 | any non-empty string argument, placeholders in it included, is inserted as it is and not scanned again; scanning resumes after the placeholder |
| I18n.NotPlaceholders | src/store/i18n.ts:92 | `{}` and `{a-b}` are left untouched |
| I18n.FalsyBlanks | src/store/i18n.ts:92 | a missing argument, `''` and `0` all replace the placeholder with nothing |
| I18n.Translate | src/store/i18n.ts:87 | `translations[lang][key] \|\| key`; characterised by `I18n.TranslateFallsBack` |
| I18n.TranslateFallsBack | src/store/i18n.ts:87 | the lookup with its fallback to the key is never empty; it is the message when that is non-empty and the key otherwise |
| I18n.EnglishComplete | src/store/i18n.ts:12-45 | no English message is empty |
| I18n.ChineseComplete | src/store/i18n.ts:46-79 | no Chinese message is empty |
| I18n.TablesComplete | src/store/i18n.ts:11-87 | in both languages every lookup returns the message itself, never the key |
| I18n.I18nStore.constructor | src/store/i18n.ts:83 | the store starts in Chinese |
| I18n.I18nStore.SetLang | src/store/i18n.ts:84 | `setLang` sets the language and nothing else |
| I18n.I18nStore.T | src/store/i18n.ts:85-88 | `t(key)` is the current language's message for the key |
| I18n.SwitchAndLookup | src/store/i18n.ts:84-88 | after `setLang(l)`, `t(key)` is the lookup in language l |

## Left out

- Loading the document and rendering pages with pdf.js (`loadPDF`, `renderPageToCanvas`, `getPage`) are not modelled. A page's rendered canvas, or the error raised while rendering it, comes from the `render` function parameter, which is given the page number and the scale.
- Pixels, `fillRect`, `drawImage` and `strokeRect` are recorded as drawing commands, not executed. The encoder behind `toDataURL` is the `encode` function parameter. It either gives the base64 data or gives nothing, for a canvas the browser cannot serialise. Browsers cap a canvas's side length and area; a stitched group past the cap is such a canvas. The caps are browser-specific, so the model does not compute them: `encode` decides. The model fixes the URL's `data:<mime>;base64,` frame, and `data:,` for a canvas with no pixels or one the encoder cannot serialise. A run never encodes a canvas with no pixels (see the next line), but a canvas past the cap does reach the encoder. Its image is then `data:,`, which is named `jpg` and has an empty payload (`Archive.StitchedImageEntry`).
- Pipeline.ProcessGroup: the model draws a page canvas with a zero width or height like any other and returns the group's image. In the source, `drawImage` (src/utils/pdfProcessor.ts:125, 149) throws `InvalidStateError` for such a canvas, and the catch reports an error and rethrows after the stitching report. So for a renderer that yields a zero side, the model's outcome is `Ok` where the source's is an error. With positive sides on every page, the canvas has positive sides (`Layout.PagesFillCanvas`), and the image is named and filled as `Archive.StitchedImageEntry` states.
- A `getContext('2d')` call that returns nothing, and the error it raises, are not modelled. Only render failures reach the error path.
- The `async`/`await` sequencing is not modelled. The re-throw after the error report becomes the `Err` outcome.
- Scale, quality and progress are exact reals. IEEE double rounding is not modelled.
- Archive generation and base64 decoding by JSZip are not modelled. Saving the archive and the user interface are not modelled either.
- The zustand store machinery is reduced to the one field `lang`.
- `String(x)` is modelled for strings and whole numbers only. Fractional numbers, `NaN` and the infinities are not. Neither are argument records whose prototype supplies keys.
- I18n.I18nStore.T: keys are the table's own keys, as the source's `keyof typeof translations.en` type demands, so a lookup of an unknown key is not modelled. The fallback to the key is proved for an empty message (`I18n.TranslateFallsBack`); the tables hold no empty message (`I18n.TablesComplete`).
- Layout.Stitch: requires at least one page. Every group the partition keeps holds a page, so the source never stitches an empty group, where `Math.max()` would give minus infinity.
- Pipeline.ProcessGroups: requires every group to be non-empty, which `Partition.PartitionPages` guarantees for the groups it returns.
- Partition.PartitionPages: `totalPages` and `splitCount` are natural numbers. With `splitCount` zero the source divides by zero, but the loop then runs zero times, so the model uses 0 for the unused shares. Negative or fractional counts are not modelled.
- Decimal.IntToString: only integers are spelled, and every one in positional notation. JavaScript switches to exponent form at magnitude 10^21 and rounds integers beyond 2^53. Page counts, group numbers and indices stay far below both.
- `generateZip`'s default `filename`, `'stitched-images'`, is not modelled. `Archive.ZipEntries` takes the name as a parameter; its one caller always passes a name.
- `Pipeline.ProcessGroup`, `Pipeline.RenderGroup` and `Pipeline.StitchGroup` split the body of the group loop into three methods. They keep the order of the source's statements and status reports.
