# Text list with a rich-text editor: a verified model

A small React application keeps a list of saved texts. The user types into
an input buffer. The ADD action moves a non-blank buffer into a persisted
store and clears the buffer. Next to it sits a rich-text editor whose
toolbar rewrites the textarea's contents. Bold, italic and link wrap the
selection in markdown markers. Bullet and numbered list put a prefix at the
start of the cursor's line. Emoji inserts a glyph at the cursor. A render
helper turns the markdown into HTML.

The model has three modules, one per source file:

- `RichTextEditor` (`editor.dfy`): pure functions. Each toolbar action maps
  the textarea's `value` and its selection `[start, end]` to an `Edit`. An
  `Edit` holds the new text and the selection the editor puts back
  afterwards. JavaScript's `lastIndexOf` is modelled with its ECMAScript
  clamping of the search position, and `formatTextToHtml` is modelled by its
  empty-input case and its final newline pass.
- `Store` (`store.dfy`): the saved-text store as a class with a
  `seq<string>` field and an `AddText` method.
- `App` (`app.dfy`): the component state is a class holding the input buffer
  and the store, with the ADD action as a method. JavaScript's `trim()` is
  modelled with the ECMAScript white-space and line-terminator characters.

Strings are `seq<char>`, so every offset and length in the model counts
Unicode scalar values. JavaScript counts UTF-16 code units instead. The two
agree on every character the transforms look for or insert themselves: the
newline, the bullet, the markers and the white-space set. They differ only
for user text or parameters that hold characters outside the Basic
Multilingual Plane (see "## Left out").

The source file's listing shows the bullet prefix mis-encoded, as the three
characters `â€¢` followed by a space (src/components/RichTextEditor.tsx:38).
The same mis-encoding shows in the toolbar button's label (line 96) and in
the list-item regular expression (line 136). The model reads it as the bullet `U+2022` followed by a space,
two code units in all. The bullet handler moves the cursor on by exactly 2
(src/components/RichTextEditor.tsx:43), which agrees with that reading.

## Model

| member | source | states |
|---|---|---|
| `RichTextEditor.InsertFormatting` | src/components/RichTextEditor.tsx:16-26 | The text grows by exactly the two markers' lengths. The prefix before `start` and the suffix after `end` are kept verbatim. `before` and `after` sit directly around the selected text. The restored selection `[start+|before|, end+|before|]` covers exactly the originally selected text. |
| `RichTextEditor.InsertFormattingRoundTrip` | src/components/RichTextEditor.tsx:19 | Taking both markers back out of the new text gives back the original value. |
| `RichTextEditor.HandleBold` | src/components/RichTextEditor.tsx:30 | Bold adds 4 characters, with `**` on each side of the selection. The outside text is kept and the selection still covers the same text, shifted by 2. |
| `RichTextEditor.HandleItalic` | src/components/RichTextEditor.tsx:31 | Italic adds 2 characters, with `_` on each side of the selection. The outside text is kept and the selection is shifted by 1. |
| `RichTextEditor.LinkSuffix` | src/components/RichTextEditor.tsx:65 | The closing marker is `](`, then the URL, then `)`. |
| `RichTextEditor.HandleLink` | src/components/RichTextEditor.tsx:62-67 | A cancelled or empty URL changes nothing, and only those do. Otherwise the result is the wrap with `[` and `](url)`: the text grows by `|url| + 4` and the selection stays the link text. |
| `RichTextEditor.LastIndexAtOrBelow` | src/components/RichTextEditor.tsx:37 | The index found holds the searched character, is at most the bound, and no higher index up to the bound holds it. -1 means the character does not occur. |
| `RichTextEditor.SearchLimit` | src/components/RichTextEditor.tsx:37 | The highest index `lastIndexOf` may report. A negative position clamps to 0, and a position past the end clamps to the last index. |
| `RichTextEditor.LastIndexOf` | src/components/RichTextEditor.tsx:37 | `lastIndexOf` finds the last occurrence at or below the clamped position, or -1 when there is none. |
| `RichTextEditor.LineStart` | src/components/RichTextEditor.tsx:36-37 | For a cursor past index 0, the result is 0 exactly when no newline precedes the cursor. Otherwise it is one past the last newline before the cursor. At cursor 0 it is 1 when the text begins with a newline. It is at most the cursor except in that one case. |
| `RichTextEditor.InsertLinePrefix` | src/components/RichTextEditor.tsx:38 | The prefix goes in at the line start and nothing else changes: the text before it is kept and the text after it is the rest of the old value. |
| `RichTextEditor.CursorFollowsText` | src/components/RichTextEditor.tsx:43 | When the line start is not past the cursor, the cursor moved on by the prefix length is in front of the same text as before. |
| `RichTextEditor.LinePrefixRoundTrip` | src/components/RichTextEditor.tsx:38 | Taking the prefix back out at the line start gives back the original value. |
| `RichTextEditor.HandleBulletList` | src/components/RichTextEditor.tsx:32-45 | The new text is the value with `'• '` at the line start, and it is 2 longer. The cursor is collapsed at `start + 2`. When the line start is not past the cursor, the cursor is in front of the text it was in front of. |
| `RichTextEditor.HandleNumberedList` | src/components/RichTextEditor.tsx:47-60 | The new text is the value with `'1. '` at the line start, and it is 3 longer. The cursor is collapsed at `start + 3`, with the same caveat as the bullet list. |
| `RichTextEditor.BulletListAtLeadingNewline` | src/components/RichTextEditor.tsx:37-43 | For the value `"\nab"` with the cursor at 0, the bullet goes in after the newline and the restored cursor lands between the bullet and its space. |
| `RichTextEditor.CursorLineStart` | src/components/RichTextEditor.tsx:37 | Corrected line start. It is never past the cursor, it follows a newline (or is 0), and no newline lies between it and the cursor. |
| `RichTextEditor.InsertListItem` | src/components/RichTextEditor.tsx:38-43 | Corrected list insertion. It adds only the prefix at the cursor's own line start, and the cursor always stays in front of the same text. |
| `RichTextEditor.LineStartAgrees` | src/components/RichTextEditor.tsx:37 | Outside the leading-newline case the two line starts agree, so both list handlers equal the corrected insertion. |
| `RichTextEditor.HandleEmoji` | src/components/RichTextEditor.tsx:75-81 | The emoji is inserted at `start`, and the selection end is ignored. The text grows by the emoji's length. The cursor is collapsed just after the emoji, in front of the text that followed `start`. |
| `RichTextEditor.EmojiRoundTrip` | src/components/RichTextEditor.tsx:76 | Taking the emoji back out gives back the original value. |
| `RichTextEditor.BreakLines` | src/components/RichTextEditor.tsx:145 | The newline pass never shortens the text. |
| `RichTextEditor.BreakLinesNoNewline` | src/components/RichTextEditor.tsx:145 | No newline survives the pass. |
| `RichTextEditor.BreakLinesKeepsPlainText` | src/components/RichTextEditor.tsx:145 | Text without newlines passes through unchanged. |
| `RichTextEditor.BreakLinesAppend` | src/components/RichTextEditor.tsx:145 | The newline pass distributes over concatenation. |
| `RichTextEditor.BreakLinesChar` | src/components/RichTextEditor.tsx:145 | A newline becomes exactly `<br>` and every other character is kept. |
| `RichTextEditor.FormatTextToHtml` | src/components/RichTextEditor.tsx:121-148 | The empty text renders as `''`. Any other text is the newline pass applied to the markdown result, so each newline there becomes `<br>` (with `BreakLinesChar` and `BreakLinesAppend`). No rendered output contains a newline. A markdown result without newlines is returned unchanged. |
| `Store.TextStore.constructor` | src/store/useTextStore.ts:12 | The store starts with no saved texts. |
| `Store.TextStore.AddText` | src/store/useTextStore.ts:13-16 | `newText` becomes the new last entry. The length grows by exactly one and earlier entries keep their values and order. There is no validation or deduplication: the count of `newText` grows by one even when it is empty or already present. No other state changes. |
| `App.TrimStart` | src/App.tsx:13 | The result is a suffix of the input that is empty or does not start with white space. |
| `App.TrimEnd` | src/App.tsx:13 | The result is a prefix of the input that is empty or does not end with white space. |
| `App.Trim` | src/App.tsx:13 | `trim()` gives a contiguous piece of the input that neither starts nor ends with white space. |
| `App.TrimStartDropsWhiteSpace` | src/App.tsx:13 | Everything cut off the front is white space. |
| `App.TrimEndDropsWhiteSpace` | src/App.tsx:13 | Everything cut off the back is white space. |
| `App.TrimDropsOnlyWhiteSpace` | src/App.tsx:13 | `trim()` cuts off only white space: everything before and after the trimmed piece is white space. |
| `App.TrimStartEmptyIffBlank` | src/App.tsx:13 | Stripping leading white space leaves nothing exactly when the text is blank. |
| `App.TrimEndEmptyIffBlank` | src/App.tsx:13 | Stripping trailing white space leaves nothing exactly when the text is blank. |
| `App.TrimEmptyIffBlank` | src/App.tsx:13 | `trim()` is empty, hence falsy, exactly when the text is empty or white space only. |
| `App.AppState.constructor` | src/App.tsx:7 | The input buffer starts empty. |
| `App.AppState.HandleAdd` | src/App.tsx:12-17 | With a blank buffer neither the buffer nor the store changes. Otherwise the untrimmed buffer is appended, the store grows by exactly one, and the buffer becomes `''`. |

## Findings

| source | as written | input that shows it | evidently intended | confidence | as-written member | corrected member |
|---|---|---|---|---|---|---|
| src/components/RichTextEditor.tsx:37 | `value.lastIndexOf('\n', start - 1) + 1` clamps the position -1 to 0, so at cursor 0 a leading newline is found and the line start becomes 1 | value `"\nab"`, cursor 0, bullet list: the text becomes `"\n• ab"` and the cursor lands at 2, between the bullet and its space | the prefix goes at the start of the cursor's own (first, empty) line, giving `"• \nab"` with the cursor at 2, in front of the original text | high; not executed | `RichTextEditor.BulletListAtLeadingNewline` | `RichTextEditor.InsertListItem` |

`HandleBulletList` and `HandleNumberedList` keep the code as written.
`LineStartAgrees` shows that they coincide with the corrected
`InsertListItem` on every other input.

## Left out

- React rendering and wiring are not modelled: JSX, `useState`/`useRef`, the textarea element, `focus()`, and the `setTimeout` that applies the cursor. Only the computed text and offsets are modelled.
- The early return when the textarea ref is `null` is not modelled, because the model always has a selection.
- Random emoji choice: `Math.random` over the emoji list (src/components/RichTextEditor.tsx:70-71) is not modelled. The chosen emoji is a parameter.
- URL dialog: `prompt()` is not modelled. Its answer is a parameter, with `None` for a cancelled dialog.
- UTF-16 lengths: every length and offset here counts Unicode scalar values, while JavaScript counts UTF-16 code units. A character outside the Basic Multilingual Plane counts 1 here and 2 in JavaScript. This affects the selection and cursor offsets wherever such a character occurs in the text, in the URL (`|url| + 4` in `HandleLink`) or in the emoji (`HandleEmoji`, where most of the emoji list lies outside that plane). The positions stay correct relative to the inserted text in both counts.
- RichTextEditor.FormatTextToHtml: the regular-expression passes for bold, italic, links, list items and `<ul>` wrapping (src/components/RichTextEditor.tsx:127-142) are a function parameter. They are not described, because modelling them faithfully needs JavaScript regular-expression semantics: non-greedy matching, `.` excluding newlines, multiline anchors, and chained global replaces. Only the empty-input case and the final newline pass are modelled.
- Persistence is not modelled: the zustand `persist` middleware and its local-storage key `'text-storage'` are I/O through a library outside this model.
- Input handling is not modelled: the input's `onChange` and the Ctrl+Enter shortcut (src/App.tsx:28-29) are UI event wiring that only set the buffer or call `HandleAdd`.
