# flyergen template core, in Dafny

flyergen is a flyer builder. In the **Template** panel an editor writes an HTML
template. The template may contain placeholders `{{NAME}}` and one reserved
placeholder `{{QR_CODE}}`. In the **Customize** panel a customer fills in one
input per placeholder and gives a target text for the QR code. The preview shows
the template with every placeholder replaced by its value. The flyer can be
exported as a standalone HTML page.

This project models that core and proves what it promises:

- `Placeholders`: the field scanner. It matches the regular expression
  `{{\s*([a-zA-Z0-9_]+)\s*}}` at one index (`MatchAt`). It models `exec` with
  `lastIndex` (`Exec`) and the `while` loop that fills an insertion-ordered `Set`
  and a `qrFound` flag (`ScanFields`). `FieldsOf` and `HasQr` specify the loop.
- `FlyerCanvas`: the preview renderer and the export document.
  - `KeyMatchAt` is the per-key regular expression `{{\s*KEY\s*}}`.
  - `Expand` is the `$`-pattern semantics of `String.prototype.replace`.
  - `ReplacePattern` is `replace` as written. `ReplaceLiteral` is the corrected
    replacement, which puts the value verbatim.
  - `RenderAsWritten` is the source's fold over the entries in property order,
    and `RenderHtml` is its loop. `Render` is the corrected fold, which the
    preview of the model (`App.Preview`) uses.
  - `ExportDocument` is the downloaded page. `HtmlFileName` and `PngFileName`
    are the two download names.
- `JsRecord`: the variable object.
  - It is a list of own properties in property order: array-index keys first,
    in numeric order, then the other keys in insertion order.
  - `Put` is `{ ...prev, [key]: value }`.
  - `Get` is a property read.
- `Text`: the ECMAScript whitespace set behind `\s` and `trim`, and `trim`
  itself. Also ASCII `toUpperCase`/`toLowerCase` and a single-character global
  `replace`.
- `Presets`: the three preset templates, copied verbatim as data, and the
  lookup `PRESETS[key]`.
- `AppState`: the application's four state fields (`mode`, `currentHtml`,
  `variables`, `themeColor`) as the class `App`. Its handler methods each
  replace one field and leave the others alone.
- `AdminPanel`: the editor panel as the class `Panel`. It models the selection
  splice, name cleaning, the image tag, the QR placeholder and preset loading.
- `UserPanel`: the customer panel as the class `Panel`. It models the scan
  effect, the QR effect (given the encoder's outcome), and each field's label,
  hint and displayed value.

Two facts about the renderer shape everything stated about it.

**Rendering is a left fold.** A value that itself holds a placeholder is
rewritten by any later entry. So rendering is neither idempotent nor
independent of the entry order. `FlyerCanvas.RenderOrderCounterexample`
exhibits both for every pair of distinct identifiers, even with values that
contain no braces.

**Values are replacement patterns.** The source hands each value to `replace`
as a pattern, so `$&`, `$$`, `` $` `` and `$'` in a value are not shown as
typed. See "## Findings".

## Model

| member | source | states |
|---|---|---|
| Text.SkipWsSpec | components/UserPanel.tsx:30 | a greedy `\s*` passes over whitespace only and stops at the first non-whitespace character |
| Text.Trim | components/UserPanel.tsx:36 | `trim` removes whitespace at both ends only; the result is empty exactly when the input is all whitespace |
| Text.TrimPadded | components/AdminPanel.tsx:49 | trimming whitespace-padded text returns the text between the padding |
| Text.ToUpper | components/AdminPanel.tsx:49 | `toUpperCase` keeps the length, turns each `a`..`z` into its capital (code minus 32), keeps every other character, and keeps whitespace where it was |
| Text.ToLower | components/UserPanel.tsx:128 | `toLowerCase` keeps the length, turns each `A`..`Z` into its small letter (code plus 32), and keeps every other character |
| Text.ReplaceChar | components/UserPanel.tsx:122 | `replace(/x/g, y)` keeps the length, leaves no `x` (when `y` differs), puts `y` where each `x` was, keeps every other character in its place, and brings in no character but `y` |
| Text.ReplaceCharInverse | components/UserPanel.tsx:122 | replacing `x` by `y` is undone by replacing `y` by `x` when `y` did not occur |
| Placeholders.MatchAt | components/UserPanel.tsx:30 | a match at `i` is at least five characters long and ends inside the text |
| Placeholders.MatchAtShape | components/UserPanel.tsx:30 | a match is `{{`, whitespace or identifier characters, then `}}` |
| Placeholders.MatchAtIff | components/UserPanel.tsx:30 | `MatchAt` matches from `i` to `e` with a given name exactly when that stretch is `{{`, whitespace, the name as an identifier, whitespace, `}}` (both directions) |
| Placeholders.PlaceholderMatches | components/UserPanel.tsx:30 | whitespace inside the braces is tolerated: `{{ NAME }}` matches with name `NAME` wherever it stands |
| Placeholders.Exec | components/UserPanel.tsx:35 | `exec` from `lastIndex` returns a real match at or after `lastIndex` |
| Placeholders.ExecLeftmost | components/UserPanel.tsx:35 | `exec` finds the leftmost match: no match is skipped |
| Placeholders.MatchesDisjoint | components/UserPanel.tsx:35 | matches never overlap, so jumping to a match's end loses none |
| Placeholders.MatchNamesIdent | components/UserPanel.tsx:30 | every captured name is a non-empty run of ASCII letters, digits and `_` |
| Placeholders.TrimIdent | components/UserPanel.tsx:36 | `match[1].trim()` is the captured name itself |
| Placeholders.FieldsSnoc | components/UserPanel.tsx:37-41 | one more captured name updates the field list as one loop iteration does: `QR_CODE` is skipped, any other name is added once |
| Placeholders.FieldsFromFields | components/UserPanel.tsx:35-42 | accumulating names onto the fields of a prefix gives the fields of the whole name list |
| Placeholders.ScanStep | components/UserPanel.tsx:35 | the names from `lastIndex` on are the found name followed by the names after its match |
| Placeholders.ScanFields | components/UserPanel.tsx:29-45 | the scan loop returns exactly `FieldsOf(html)` and `HasQr(html)` |
| Placeholders.FieldsDistinct | components/UserPanel.tsx:31-40 | the field list has no repeats |
| Placeholders.FieldsMembers | components/UserPanel.tsx:37-41 | a name is a field exactly when it was captured and is not `QR_CODE` |
| Placeholders.FieldsOrderPair | components/UserPanel.tsx:40-43 | any two fields appear in the order of their names' first capture |
| Placeholders.FieldsFirstOccurrence | components/UserPanel.tsx:31-43 | the fields appear in order of first occurrence of their names |
| Placeholders.FieldsOfRepeat | components/UserPanel.tsx:37-41 | names `a`, `b`, `a` give the fields `a`, `b`: a name captured again adds no second field |
| Placeholders.NamesFromPlaceholder | components/UserPanel.tsx:35 | a placeholder at `lastIndex` is captured there and the scan goes on from its end |
| Placeholders.RepeatedPlaceholderOnce | components/UserPanel.tsx:31-44 | the template `{{a}}{{b}}{{a}}` has the fields `a`, `b`, in that order, once each, and no QR code |
| Placeholders.ScanFinds | components/UserPanel.tsx:35 | every placeholder at or after `lastIndex` is captured |
| Placeholders.ScanSound | components/UserPanel.tsx:35 | every captured name comes from a match in the template |
| Placeholders.ScannedIffOccurs | components/UserPanel.tsx:35 | a name is captured exactly when a placeholder of that name occurs (both directions) |
| Placeholders.FieldsOfSpec | components/UserPanel.tsx:30-43 | the fields are exactly the non-`QR_CODE` names of occurring placeholders, without repeats, each an identifier |
| Placeholders.HasQrSpec | components/UserPanel.tsx:37-44 | `hasQr` holds exactly when a `QR_CODE` placeholder occurs, and `QR_CODE` is never a field |
| Placeholders.PlaceholderReported | components/UserPanel.tsx:30-35 | a placeholder inserted anywhere in a template is reported |
| Placeholders.NoBracesNoNames | components/UserPanel.tsx:30 | a template without `{{` reports no name |
| Placeholders.SinglePlaceholder | components/UserPanel.tsx:30-36 | a template that is one placeholder `{{ w1 NAME w2 }}` reports exactly `NAME` |
| Placeholders.OneName | components/UserPanel.tsx:37-44 | with one captured name, the fields are that name unless it is `QR_CODE`, and `hasQr` says whether it is |
| Placeholders.UnterminatedIgnored | components/UserPanel.tsx:30 | an unterminated token such as `{{NAME` (no `}` anywhere) gives no field and no QR flag |
| Placeholders.TooShortIgnored | components/UserPanel.tsx:30 | a text shorter than five characters, such as the empty braces `{{}}`, gives no field and no QR flag |
| Placeholders.ForeignCharIgnored | components/UserPanel.tsx:30 | braces around a character that is neither whitespace nor an identifier character, as in `{{MY-VAR}}`, give no field and no QR flag |
| Placeholders.TwoWordsIgnored | components/UserPanel.tsx:30 | braces around two words separated by whitespace, as in `{{A B}}`, give no field and no QR flag |
| JsRecord.Get | components/UserPanel.tsx:126 | a property read yields nothing exactly when the key is not an own property, and otherwise the value of an entry with that key |
| JsRecord.GetEntry | components/UserPanel.tsx:126 | with distinct keys, reading an entry's key gives that entry's value |
| JsRecord.CanonicalDecimalInjective | App.tsx:50 | two array-index keys with the same numeric value are the same key, so ordering index keys by value is a total order |
| JsRecord.Put | App.tsx:50 | `{...prev, [k]: v}`: an existing key keeps its place, a new array index goes to its numeric place, any other new key goes last; its properties are `GetPut`, `PutKeys`, `PutOrder`, `PutIdempotent` and `PutWellFormed` |
| JsRecord.GetPut | App.tsx:50 | after `{...prev, [k]: v}` the key `k` reads `v` and every other key reads as before |
| JsRecord.PutKeys | App.tsx:50 | the update adds only `k` and never removes a key |
| JsRecord.PutIdempotent | App.tsx:50 | applying the same update twice equals applying it once |
| JsRecord.PutOrder | App.tsx:50 | updating an existing key keeps the property order; a new non-index key is appended |
| JsRecord.PutWellFormed | App.tsx:50 | the update keeps the keys distinct and in property order |
| FlyerCanvas.KeyMatchAgrees | components/FlyerCanvas.tsx:25 | for an identifier key, the key's expression matches exactly where the scanner finds a placeholder of that name, ending at the same index |
| FlyerCanvas.ExpandEscaped | components/FlyerCanvas.tsx:26 | a value with every `$` doubled expands to the value itself, whatever was matched |
| FlyerCanvas.NoDollarPlain | components/FlyerCanvas.tsx:26 | a `$`-free value is its own escape and its own expansion |
| FlyerCanvas.ReplaceAgrees | components/FlyerCanvas.tsx:26 | for a `$`-free value, `replace` as written and the verbatim replacement agree |
| FlyerCanvas.ReplaceUnchanged | components/FlyerCanvas.tsx:25-26 | where the key's expression matches nowhere, the text is returned unchanged |
| FlyerCanvas.PlaceholderKeyMatch | components/FlyerCanvas.tsx:25 | at a placeholder, a key matches exactly when the name is the key, and no match starts inside the placeholder |
| FlyerCanvas.PlaceholderKept | components/FlyerCanvas.tsx:25-31 | a placeholder of another name survives one key's replacement, at a known index |
| FlyerCanvas.ReplaceAround | components/FlyerCanvas.tsx:25-26 | with no match outside a placeholder, the replacement changes that placeholder alone: into the value when its name is the key, not at all otherwise |
| FlyerCanvas.PlaceholderReplaced | components/FlyerCanvas.tsx:25-26 | wherever a placeholder of the key stands, the output holds the value in its place, followed by the replacement of the text after it |
| FlyerCanvas.SoleReplacement | components/FlyerCanvas.tsx:25-26 | the one placeholder of the key becomes the value and the text around it is kept |
| FlyerCanvas.BraceFreeUnchanged | components/FlyerCanvas.tsx:25-26 | a text without `{{` is left unchanged by every key, as written and as corrected |
| FlyerCanvas.ReplaceBraced | components/FlyerCanvas.tsx:25-26 | in `{{{{name}}}}` a key replaces only the inner placeholder, and only when it is the name |
| FlyerCanvas.Expand | components/FlyerCanvas.tsx:26 | the replacement text for one match: `$$` is `$`, `$&` the match, `` $` `` the text before, `$'` the text after, anything else itself; its properties are `ExpandEscaped` and `ExpandMatched` |
| FlyerCanvas.ReplacePattern | components/FlyerCanvas.tsx:25-26 | `replace` with the key's expression and the value as a pattern, as written; related to the corrected replacement by `ReplaceAgrees` and `DollarPatternExample` |
| FlyerCanvas.ReplaceLiteral | components/FlyerCanvas.tsx:25-26 | every match of the key's expression replaced by the value itself; its properties are `SoleReplacement`, `ReplaceAround` and `PlaceholderKept` |
| FlyerCanvas.RenderAsWritten | components/FlyerCanvas.tsx:20-34 | the source's fold of `ReplacePattern` over the entries in property order, computed by `RenderHtml` |
| FlyerCanvas.Render | components/FlyerCanvas.tsx:20-34 | the corrected fold of `ReplaceLiteral`; its properties are `RenderSnoc`, `RenderBraceFree`, `RenderKeepsUnfilled` and `RenderFillsPlaceholder` |
| FlyerCanvas.RenderAgrees | components/FlyerCanvas.tsx:20-34 | when no value holds `$`, the fold as written renders the same preview as the corrected fold |
| FlyerCanvas.RenderHtml | components/FlyerCanvas.tsx:20-34 | the `forEach` loop over `Object.entries(variables)`, with each value handed to `replace` as a pattern, computes `RenderAsWritten(html, variables)`; when no value holds `$` that is the corrected `Render(html, variables)` |
| FlyerCanvas.RenderSnoc | components/FlyerCanvas.tsx:21-27 | rendering with `M ++ [(k, v)]` is the `(k, v)` replacement applied to the rendering of `M`: a left fold in entry order |
| FlyerCanvas.RenderBraceFree | components/FlyerCanvas.tsx:21-33 | a template without `{{` is shown unchanged, whatever the variables |
| FlyerCanvas.RenderKeepsUnfilled | components/FlyerCanvas.tsx:25-31 | a placeholder whose name is not a key stays in the preview (key `A` does not touch `{{AB}}`) |
| FlyerCanvas.RenderFillsPlaceholder | components/FlyerCanvas.tsx:25-26 | `pre {{K}} post` rendered with `K: v` shows `pre v post` (so `Hello {{NAME}}` with `NAME: World` shows `Hello World`) |
| FlyerCanvas.DollarPatternExample | components/FlyerCanvas.tsx:26 | a value typed as `$&` shows the placeholder itself as written, and `$&` once corrected |
| FlyerCanvas.RenderOrderCounterexample | components/FlyerCanvas.tsx:24-27 | rendering depends on entry order and is not idempotent: `{{{{a}}}}` with `x: v, a: "x"` shows `{{x}}`; rendering again, or in the other order, shows `v` |
| FlyerCanvas.ExportDocument | components/FlyerCanvas.tsx:70-82 | the downloaded page around the flyer's markup; read back by `ExportRoundTrip` |
| FlyerCanvas.ExportRoundTrip | components/FlyerCanvas.tsx:70-82 | the exported page carries the flyer's markup verbatim inside the card `div`, readable back given title and colour |
| FlyerCanvas.ExportInjective | components/FlyerCanvas.tsx:70-82 | two exports with the same title and colour differ when the flyers differ |
| FlyerCanvas.ExportDeclaresThemeAndTitle | components/FlyerCanvas.tsx:75-78 | the page holds `<title>` + file name + `</title>` and `--theme-color: ` + colour, at their places |
| FlyerCanvas.DownloadNamesDiffer | components/FlyerCanvas.tsx:87 | the HTML download is the file name plus `.html`; the image download (line 59) is the file name plus `.png`; the two never coincide |
| Presets.Lookup | components/AdminPanel.tsx:16 | `PRESETS[key]` is truthy exactly for `promo`, `event` and `cert`, and each of them gives its own template |
| AppState.App.constructor | App.tsx:10-13 | the initial state: mode `ADMIN`, the `promo` template, no variables, theme `#4f46e5` |
| AppState.App.UpdateVariable | App.tsx:49-51 | the key now holds the value, every other key keeps its value, no key is lost, the object stays well formed, and no other field changes |
| AppState.App.UpdateHtml | App.tsx:106 | only the template changes; stale variables stay |
| AppState.App.UpdateTheme | App.tsx:115 | only the theme colour changes |
| AppState.App.SelectAdmin | App.tsx:87 | the Template button sets mode `ADMIN` and changes nothing else |
| AppState.App.SelectUser | App.tsx:93 | the Customize button sets mode `USER` and changes nothing else |
| AppState.App.Save | App.tsx:107 | saving sets mode `USER` and changes nothing else |
| AppState.App.Preview | App.tsx:143-149 | the preview with every value shown as typed: it is the source's preview whenever no value holds `$`, and the template itself when the template holds no `{{` |
| AppState.App.ExportHtml | App.tsx:117 | the HTML export is named `my-flyer.html` and carries the flyer's markup, readable back |
| AppState.App.ExportImageName | App.tsx:116 | the image export is named `my-flyer.png`, not the HTML export's name |
| AppState.LaterUpdateWins | App.tsx:50 | of two updates, the later one wins for its key and the earlier one survives for another key |
| AdminPanel.Substring | components/AdminPanel.tsx:34 | `substring(a, b)` is the slice between the smaller and the larger index, each clamped to the text's length |
| AdminPanel.Splice | components/AdminPanel.tsx:34 | `value.substring(0, start) + text + value.substring(end)`; its properties are `SpliceSelection` and `SpliceUndo` |
| AdminPanel.Inserted | components/AdminPanel.tsx:30-43 | the template after an insertion: spliced at the selection with an editor, appended without one |
| AdminPanel.SpliceSelection | components/AdminPanel.tsx:31-35 | for a selection inside the text the splice is `value[..start] + text + value[end..]`, whose length is the old length minus the selection plus the inserted text, keeping the prefix and the suffix |
| AdminPanel.SpliceUndo | components/AdminPanel.tsx:34 | the splice loses nothing but the selection: the old text can be put back |
| AdminPanel.InsertedAppends | components/AdminPanel.tsx:43 | without an editor, the text is appended to the end of the template |
| AdminPanel.CollapseWs | components/AdminPanel.tsx:49 | `replace(/\s+/g, '_')` leaves no whitespace, only `_` or characters of the input, no longer text, and is empty only for empty input |
| AdminPanel.CleanName | components/AdminPanel.tsx:49 | `trim().toUpperCase().replace(/\s+/g, '_')`: no longer than the input, and empty exactly when the input is all whitespace |
| AdminPanel.CollapseWsWord | components/AdminPanel.tsx:49 | a word without whitespace is kept in front of the collapsed rest |
| AdminPanel.CollapseWsLeadingRun | components/AdminPanel.tsx:49 | a leading whitespace run becomes one `_` |
| AdminPanel.CollapseWsRun | components/AdminPanel.tsx:49 | each maximal whitespace run becomes exactly one `_` |
| AdminPanel.CollapseWsPlain | components/AdminPanel.tsx:49 | a text without whitespace is left as it is |
| AdminPanel.CleanNameShape | components/AdminPanel.tsx:49 | the cleaned name has no whitespace anywhere, so none at either end, and no lower-case ASCII letter |
| AdminPanel.CleanNameBlank | components/AdminPanel.tsx:49-50 | whitespace-only input cleans to the empty name, so `{{}}` is inserted |
| AdminPanel.CleanNameIdempotent | components/AdminPanel.tsx:49 | cleaning a cleaned name changes nothing |
| AdminPanel.ImgTagRoundTrip | components/AdminPanel.tsx:56 | the image tag carries the address verbatim |
| AdminPanel.InsertedFieldReported | components/AdminPanel.tsx:47-52 | a variable token inserted for a name the scanner accepts becomes a field of the new template |
| AdminPanel.InsertedQrReported | components/AdminPanel.tsx:60-62 | after inserting `{{QR_CODE}}` the template has a QR code |
| AdminPanel.Panel.constructor | components/AdminPanel.tsx:12-13 | both inputs start empty |
| AdminPanel.Panel.SetVarInput | components/AdminPanel.tsx:96 | typing in the variable-name input changes only that input |
| AdminPanel.Panel.SetImgInput | components/AdminPanel.tsx:112 | typing in the image-address input changes only that input |
| AdminPanel.Panel.LoadPreset | components/AdminPanel.tsx:15-19 | a known key replaces the whole template with that preset; an unknown key changes nothing |
| AdminPanel.Panel.InsertAtCursor | components/AdminPanel.tsx:21-45 | the text replaces the selection, or is appended without an editor; the caret lands at the selection start plus the inserted length; nothing else changes |
| AdminPanel.Panel.AddVariable | components/AdminPanel.tsx:47-52 | empty input changes nothing; otherwise `{{` + cleaned name + `}}` is inserted and the input cleared |
| AdminPanel.Panel.AddImage | components/AdminPanel.tsx:54-58 | an empty address changes nothing; otherwise the image tag with the address verbatim is inserted and the input cleared |
| AdminPanel.Panel.AddQrPlaceholder | components/AdminPanel.tsx:60-62 | `{{QR_CODE}}` is inserted and the template then has a QR code |
| UserPanel.QrImageRoundTrip | components/UserPanel.tsx:64 | the QR image element carries the data URL verbatim |
| UserPanel.QrRule | components/UserPanel.tsx:48-70 | the QR effect on the variable object, given the encoder's outcome; read key by key in `QrRuleSpec` |
| UserPanel.QrRuleSpec | components/UserPanel.tsx:48-70 | empty QR text clears `QR_CODE` to `""` only when the template has a QR code; a successful encoding sets it to the image element; a failure changes nothing; no other key changes |
| UserPanel.QrRuleNoChange | components/UserPanel.tsx:49-67 | empty text without a QR code, and a failed encoding, leave the variables as they were |
| UserPanel.FieldLabel | components/UserPanel.tsx:122 | the label: the field name with every `_` shown as a space; its properties are `FieldLabelSpec` |
| UserPanel.FieldLabelSpec | components/UserPanel.tsx:122 | the label has the name's length and no `_`, and the name can be read back from it |
| UserPanel.FieldHint | components/UserPanel.tsx:128 | the hint: `Enter `, the name in lower case with `_` shown as spaces, and `...`; related to the label by `FieldHintIsLabel` |
| UserPanel.FieldHintIsLabel | components/UserPanel.tsx:128 | the input's hint is `Enter ` + the label in lower case + `...` |
| UserPanel.DisplayValue | components/UserPanel.tsx:126 | the input shows `""` when the key is absent, and otherwise the value of an entry with that key |
| UserPanel.DisplayEntry | components/UserPanel.tsx:126 | with distinct keys, a field's input shows the value of the entry with that key |
| UserPanel.DisplayAfterUpdate | components/UserPanel.tsx:126-127 | after typing, the field's input shows the new value and every other input what it showed before |
| UserPanel.Panel.constructor | components/UserPanel.tsx:24-26 | the panel starts with no fields, an empty QR text and no QR flag |
| UserPanel.Panel.ScanTemplate | components/UserPanel.tsx:29-45 | the scan effect sets the fields to `FieldsOf(html)` and the flag to `HasQr(html)` |
| UserPanel.Panel.SetQrText | components/UserPanel.tsx:111 | typing in the QR input changes only the QR text |
| UserPanel.Panel.GenerateQr | components/UserPanel.tsx:48-70 | the QR effect changes the variables as `QrRule` says and keeps them well formed |
| UserPanel.Panel.UpdateField | components/UserPanel.tsx:126-127 | typing in a field updates its variable and the input then shows the typed value |
| UserPanel.Panel.UpdateTheme | components/UserPanel.tsx:90-96 | both colour inputs change only the theme colour |

## Left out

- Regular-expression metacharacters in keys: `KeyMatchAt` reads the key literally. The source splices the key into a `RegExp` unescaped. Every key the application stores is a scanned identifier or `QR_CODE`, so none holds a metacharacter.
- Inherited properties: `PRESETS[key]` and `variables[field]` also see `Object.prototype` members such as `constructor`. `Presets.Lookup` and `UserPanel.DisplayValue` see own properties only.
- Presets.Lookup: the preset texts are copied verbatim, but nothing is proved about their contents (which placeholders each holds).
- The QR encoder `QRCode.toDataURL`: its outcome (a data URL or a failure) is a parameter of `QrRule` and `GenerateQr`. The theme colour it is given does not enter the model.
- The asynchronous ordering of the QR effect against other updates: each effect is one atomic transition.
- The preview's serialised markup (`innerHTML`): it is a parameter of `ExportHtml`. The DOM, `dangerouslySetInnerHTML` and the CSS custom-property setter are not modelled.
- Image export with html2canvas, and its transform save/restore: only the download name is modelled.
- Download plumbing (Blob, object URLs, anchor clicks).
- Preview auto-scaling (App.tsx:19-47): floating point driven by resize events.
- Focus and caret restoration through `setTimeout` and the DOM selection: only the caret value is computed. The textarea's value is taken to be the current template, as the controlled input keeps it.
- Text.ToUpper, Text.ToLower: ASCII letters only, not full Unicode case mapping.
- AdminPanel.Panel.InsertAtCursor, AdminPanel.Splice, AdminPanel.Substring: offsets and lengths count Unicode code points, while `selectionStart`, `selectionEnd`, `substring` and `text.length` count UTF-16 code units. With a character outside the Basic Multilingual Plane (an emoji, say) before the selection or in the inserted text, the source's splice point and caret differ from the model's.
- JSX layout and styling, including the CSS `capitalize` class on a field's label.
- An empty variable object renders the template as it is: this is `Render`'s first equation, so it has no separate lemma.
- Literal scanner examples: `{{ NAME }}`, `{{NAME`, `{{}}`, `{{MY-VAR}}` and `{{A B}}` are each stated for all inputs of their shape, not for the literal text.
- `AppMode`: it has two constructors, so a mode other than `Admin` or `User` cannot be written.

## Findings

| source | as written | input that shows it | evidently intended | confidence | as-written member | corrected member |
|---|---|---|---|---|---|---|
| components/FlyerCanvas.tsx:26 | `processed.replace(regex, value)` reads the customer's value as a replacement pattern, so `$&`, `$$`, `` $` `` and `$'` are expanded | template `{{K}}` with `K: "$&"` shows `{{K}}`, not `$&` | the value is shown exactly as typed | not executed | FlyerCanvas.DollarPatternExample | FlyerCanvas.ExpandEscaped |

The as-written fold is `FlyerCanvas.RenderAsWritten`, built on
`FlyerCanvas.ReplacePattern`. The corrected fold is `FlyerCanvas.Render`,
built on `FlyerCanvas.ReplaceLiteral`, which passes the value with every `$`
doubled; the rest of the model uses it. `FlyerCanvas.RenderAgrees` shows the
two agree whenever no value holds `$`.
