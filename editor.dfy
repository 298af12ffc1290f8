/** The text computations behind the toolbar of the rich-text editor.

    Every transform takes the textarea's current `value` and its selection
    `[start, end]` and yields the new value together with the selection the
    editor restores afterwards. A textarea always reports
    `0 <= start <= end <= |value|`, which is the one precondition. */
module RichTextEditor {

  datatype Option<T> = None | Some(value: T)

  /** The new editor contents and the selection put back on the textarea. */
  datatype Edit = Edit(text: string, selStart: int, selEnd: int)

  /** A selection as a textarea reports it for `value`. */
  predicate ValidSelection(value: string, start: int, end: int) {
    0 <= start <= end <= |value|
  }

  /** `text` with the `n` characters at position `at` taken out; the inverse
      of inserting a string of length `n` at `at`. */
  function Delete(text: string, at: int, n: int): (r: string)
    requires 0 <= at && 0 <= n && at + n <= |text|
    ensures |r| == |text| - n
    ensures r[..at] == text[..at] && r[at..] == text[at + n..]
  {
    text[..at] + text[at + n..]
  }

  // ---------------------------------------------------------------------
  // Wrapping the selection: bold, italic, link

  /** Wraps the selected text in `before` and `after` and reselects the
      original text between the two markers. */
  function InsertFormatting(value: string, start: int, end: int, before: string, after: string): (r: Edit)
    requires ValidSelection(value, start, end)
    ensures |r.text| == |value| + |before| + |after|
    ensures r.selStart == start + |before| && r.selEnd == end + |before|
    ensures r.text[..start] == value[..start]
    ensures r.text[start..r.selStart] == before
    ensures r.text[r.selStart..r.selEnd] == value[start..end]
    ensures r.text[r.selEnd..r.selEnd + |after|] == after
    ensures r.text[r.selEnd + |after|..] == value[end..]
  {
    var selectedText := value[start..end];
    var newText := value[..start] + before + selectedText + after + value[end..];
    assert newText[..start] == value[..start];
    assert newText[start..start + |before|] == before;
    assert newText[start + |before|..end + |before|] == selectedText;
    assert newText[end + |before|..end + |before| + |after|] == after;
    assert newText[end + |before| + |after|..] == value[end..];
    Edit(newText, start + |before|, end + |before|)
  }

  /** Taking both markers back out of a formatted text gives back the
      original value. */
  lemma InsertFormattingRoundTrip(value: string, start: int, end: int, before: string, after: string)
    requires ValidSelection(value, start, end)
    ensures var r := InsertFormatting(value, start, end, before, after);
            Delete(Delete(r.text, r.selEnd, |after|), start, |before|) == value
  {
  }

  const BoldMarker: string := "**"
  const ItalicMarker: string := "_"

  /** Bold: the selection wrapped in `**` on both sides. */
  function HandleBold(value: string, start: int, end: int): (r: Edit)
    requires ValidSelection(value, start, end)
    ensures |r.text| == |value| + 4
    ensures r.selStart == start + 2 && r.selEnd == end + 2
    ensures r.text[..start] == value[..start] && r.text[r.selEnd + 2..] == value[end..]
    ensures r.text[start..r.selStart] == "**" && r.text[r.selEnd..r.selEnd + 2] == "**"
    ensures r.text[r.selStart..r.selEnd] == value[start..end]
  {
    InsertFormatting(value, start, end, BoldMarker, BoldMarker)
  }

  /** Italic: the selection wrapped in `_` on both sides. */
  function HandleItalic(value: string, start: int, end: int): (r: Edit)
    requires ValidSelection(value, start, end)
    ensures |r.text| == |value| + 2
    ensures r.selStart == start + 1 && r.selEnd == end + 1
    ensures r.text[..start] == value[..start] && r.text[r.selEnd + 1..] == value[end..]
    ensures r.text[start] == '_' && r.text[r.selEnd] == '_'
    ensures r.text[r.selStart..r.selEnd] == value[start..end]
  {
    InsertFormatting(value, start, end, ItalicMarker, ItalicMarker)
  }

  /** The closing half of a markdown link to `url`. */
  function LinkSuffix(url: string): (r: string)
    ensures |r| == |url| + 3
    ensures r[..2] == "](" && r[2..|r| - 1] == url && r[|r| - 1] == ')'
  {
    "](" + url + ")"
  }

  /** Link: `url` is what the URL dialog returned (`None` when it was
      cancelled). An empty or cancelled answer changes nothing; otherwise the
      selection becomes the link text of `[selection](url)`. */
  function HandleLink(value: string, start: int, end: int, url: Option<string>): (r: Option<Edit>)
    requires ValidSelection(value, start, end)
    ensures r.None? <==> (url.None? || url.value == "")
    ensures r.Some? ==> r.value == InsertFormatting(value, start, end, "[", LinkSuffix(url.value))
    ensures r.Some? ==> |r.value.text| == |value| + |url.value| + 4
    ensures r.Some? ==>
              && r.value.text[r.value.selStart - 1] == '['
              && r.value.text[r.value.selStart..r.value.selEnd] == value[start..end]
              && r.value.text[r.value.selEnd..r.value.selEnd + |url.value| + 3] == "](" + url.value + ")"
  {
    match url
    case Some(u) =>
      if u != "" then Some(InsertFormatting(value, start, end, "[", LinkSuffix(u))) else None
    case None => None
  }

  // ---------------------------------------------------------------------
  // The start of the cursor's line

  /** Index of the last `c` at or below `k`, or -1 when there is none. */
  function LastIndexAtOrBelow(s: string, c: char, k: int): (r: int)
    requires -1 <= k < |s|
    ensures -1 <= r <= k
    ensures r >= 0 ==> s[r] == c
    ensures forall j :: r < j <= k ==> s[j] != c
    decreases k + 1
  {
    if k < 0 then -1
    else if s[k] == c then k
    else LastIndexAtOrBelow(s, c, k - 1)
  }

  /** The highest index `lastIndexOf` may report for a one-character search
      from `position`: ECMAScript clamps the position into `[0, |s|]` and the
      match must fit inside the string. */
  function SearchLimit(s: string, position: int): (m: int)
    ensures -1 <= m < |s|
    ensures |s| > 0 ==> m >= 0 && m <= (if position < 0 then 0 else position)
    ensures 0 <= position < |s| ==> m == position
    ensures position < 0 && |s| > 0 ==> m == 0
    ensures position >= |s| ==> m == |s| - 1
  {
    if position < 0 then (if |s| == 0 then -1 else 0)
    else if position < |s| then position
    else |s| - 1
  }

  /** A character absent from every index of a range is absent from the
      slice over that range. */
  lemma NotInSlice(s: string, c: char, lo: int, hi: int)
    requires 0 <= lo <= hi <= |s|
    requires forall j :: lo <= j < hi ==> s[j] != c
    ensures c !in s[lo..hi]
  {
  }

  /** JavaScript's `s.lastIndexOf(c, position)` for a one-character search
      string: the last occurrence of `c` at an index no higher than the
      clamped position, or -1. */
  function LastIndexOf(s: string, c: char, position: int): (r: int)
    ensures -1 <= r < |s|
    ensures r >= 0 ==> s[r] == c && r <= SearchLimit(s, position)
    ensures forall j :: r < j <= SearchLimit(s, position) ==> s[j] != c
  {
    LastIndexAtOrBelow(s, c, SearchLimit(s, position))
  }

  /** `value.lastIndexOf('\n', start - 1) + 1`, the list handlers' notion of
      where the cursor's line begins. When `start` is 0 the search position
      -1 is clamped to 0, so a newline at index 0 is still found. */
  function LineStart(value: string, start: int): (ls: int)
    requires 0 <= start <= |value|
    ensures 0 <= ls <= |value|
    // With the cursor past the first character, this is one past the last
    // newline before the cursor, or 0 when there is none.
    ensures start > 0 ==> (ls == 0 <==> '\n' !in value[..start])
    ensures start > 0 && ls > 0 ==> ls <= start && value[ls - 1] == '\n'
    ensures start > 0 ==> '\n' !in value[ls..start]
    // At the very start, a leading newline is still found.
    ensures start == 0 ==> ls == (if |value| > 0 && value[0] == '\n' then 1 else 0)
    ensures ls <= start <==> !(start == 0 && |value| > 0 && value[0] == '\n')
  {
    var i := LastIndexOf(value, '\n', start - 1);
    assert start > 0 && i == -1 ==> forall j :: 0 <= j < start ==> value[..start][j] != '\n';
    assert start > 0 && i >= 0 ==> value[..start][i] == '\n';
    if start == 0 then i + 1
    else NotInSlice(value, '\n', i + 1, start); i + 1
  }

  // ---------------------------------------------------------------------
  // Bullet and numbered lists

  /** The bullet `'•'` and a space: two UTF-16 code units. */
  const BulletPrefix: string := "\U{2022} "
  const NumberPrefix: string := "1. "

  /** `value` with `prefix` inserted where `LineStart` says the cursor's line
      begins. */
  function InsertLinePrefix(value: string, start: int, prefix: string): (r: string)
    requires 0 <= start <= |value|
    ensures var ls := LineStart(value, start);
            |r| == |value| + |prefix| && r[..ls] == value[..ls]
            && r[ls..ls + |prefix|] == prefix && r[ls + |prefix|..] == value[ls..]
  {
    var lineStart := LineStart(value, start);
    var t := value[..lineStart] + prefix + value[lineStart..];
    assert t[..lineStart] == value[..lineStart];
    assert t[lineStart..lineStart + |prefix|] == prefix;
    assert t[lineStart + |prefix|..] == value[lineStart..];
    t
  }

  /** Where the list prefix went in, the cursor moved forward by the prefix
      length stays in front of the same text as before, as long as the line
      start is not past the cursor. */
  lemma CursorFollowsText(value: string, start: int, prefix: string)
    requires 0 <= start <= |value|
    ensures var t := InsertLinePrefix(value, start, prefix);
            var ls := LineStart(value, start);
            ls <= start ==>
              t[start + |prefix|..] == value[start..]
              && t[..start + |prefix|] == value[..ls] + prefix + value[ls..start]
  {
  }

  /** Taking the list prefix back out at the line start gives back the
      original value. */
  lemma LinePrefixRoundTrip(value: string, start: int, prefix: string)
    requires 0 <= start <= |value|
    ensures Delete(InsertLinePrefix(value, start, prefix), LineStart(value, start), |prefix|) == value
  {
  }

  /** Bullet list: `'• '` at the start of the cursor's line; the cursor
      is collapsed two positions further on. */
  function HandleBulletList(value: string, start: int): (r: Edit)
    requires 0 <= start <= |value|
    ensures r.text == InsertLinePrefix(value, start, BulletPrefix)
    ensures |r.text| == |value| + 2
    ensures r.selStart == r.selEnd == start + |BulletPrefix|
    ensures LineStart(value, start) <= start ==> r.text[r.selStart..] == value[start..]
  {
    CursorFollowsText(value, start, BulletPrefix);
    Edit(InsertLinePrefix(value, start, BulletPrefix), start + 2, start + 2)
  }

  /** Numbered list: `'1. '` at the start of the cursor's line; the cursor is
      collapsed three positions further on. */
  function HandleNumberedList(value: string, start: int): (r: Edit)
    requires 0 <= start <= |value|
    ensures r.text == InsertLinePrefix(value, start, NumberPrefix)
    ensures |r.text| == |value| + 3
    ensures r.selStart == r.selEnd == start + |NumberPrefix|
    ensures LineStart(value, start) <= start ==> r.text[r.selStart..] == value[start..]
  {
    CursorFollowsText(value, start, NumberPrefix);
    Edit(InsertLinePrefix(value, start, NumberPrefix), start + 3, start + 3)
  }

  /** With the cursor at 0 and a text that begins with a newline, the bullet
      lands after that newline, on the second line, and the restored cursor
      sits between the bullet and its space instead of in front of the text
      it was in front of. */
  lemma BulletListAtLeadingNewline()
    ensures LineStart("\nab", 0) == 1
    ensures HandleBulletList("\nab", 0).text == "\n\U{2022} ab"
    ensures HandleBulletList("\nab", 0).selStart == 2
    ensures HandleBulletList("\nab", 0).text[2..] != "\nab"[0..]
  {
  }

  /** Start of the line that holds the cursor, counting only the text before
      the cursor: `value.substring(0, start).lastIndexOf('\n') + 1`. */
  function CursorLineStart(value: string, start: int): (ls: int)
    requires 0 <= start <= |value|
    ensures 0 <= ls <= start
    ensures ls > 0 ==> value[ls - 1] == '\n'
    ensures '\n' !in value[ls..start]
  {
    var before := value[..start];
    var i := LastIndexOf(before, '\n', |before|);
    if start == 0 then i + 1
    else NotInSlice(value, '\n', i + 1, start); i + 1
  }

  /** A list item started on the cursor's own line: `prefix` goes in at
      `CursorLineStart` and the cursor moves forward by the prefix length,
      so it stays in front of the text it was in front of. */
  function InsertListItem(value: string, start: int, prefix: string): (r: Edit)
    requires 0 <= start <= |value|
    ensures var ls := CursorLineStart(value, start);
            |r.text| == |value| + |prefix| && r.text[..ls] == value[..ls]
            && r.text[ls..ls + |prefix|] == prefix && r.text[ls + |prefix|..] == value[ls..]
    ensures r.selStart == r.selEnd == start + |prefix|
    ensures r.text[r.selStart..] == value[start..]
  {
    var ls := CursorLineStart(value, start);
    var t := value[..ls] + prefix + value[ls..];
    assert t[..ls] == value[..ls];
    assert t[ls..ls + |prefix|] == prefix;
    assert t[ls + |prefix|..] == value[ls..];
    assert t[start + |prefix|..] == t[ls + |prefix|..][start - ls..];
    assert value[start..] == value[ls..][start - ls..];
    Edit(t, start + |prefix|, start + |prefix|)
  }

  /** Away from the corner case the two line starts agree, so the list
      handlers already behave as `InsertListItem`. */
  lemma LineStartAgrees(value: string, start: int)
    requires 0 <= start <= |value|
    requires !(start == 0 && |value| > 0 && value[0] == '\n')
    ensures LineStart(value, start) == CursorLineStart(value, start)
    ensures HandleBulletList(value, start) == InsertListItem(value, start, BulletPrefix)
    ensures HandleNumberedList(value, start) == InsertListItem(value, start, NumberPrefix)
  {
  }

  // ---------------------------------------------------------------------
  // Emoji

  /** Emoji: `emoji` goes in at the selection start (the selection end is
      not consulted, so a selection is not replaced) and the cursor is
      collapsed just after it. */
  function HandleEmoji(value: string, start: int, emoji: string): (r: Edit)
    requires 0 <= start <= |value|
    ensures |r.text| == |value| + |emoji|
    ensures r.selStart == r.selEnd == start + |emoji|
    ensures r.text[..start] == value[..start]
    ensures r.text[start..r.selStart] == emoji
    ensures r.text[r.selStart..] == value[start..]
  {
    var t := value[..start] + emoji + value[start..];
    assert t[..start] == value[..start];
    assert t[start..start + |emoji|] == emoji;
    assert t[start + |emoji|..] == value[start..];
    Edit(t, start + |emoji|, start + |emoji|)
  }

  /** Taking the emoji back out gives back the original value. */
  lemma EmojiRoundTrip(value: string, start: int, emoji: string)
    requires 0 <= start <= |value|
    ensures Delete(HandleEmoji(value, start, emoji).text, start, |emoji|) == value
  {
  }

  // ---------------------------------------------------------------------
  // Rendering

  /** What the newline pass makes of one character. */
  function BreakChar(c: char): string {
    if c == '\n' then "<br>" else [c]
  }

  /** The final pass of `formatTextToHtml`: every newline becomes `<br>`.
      It never shortens the text. */
  function BreakLines(s: string): (r: string)
    ensures |r| >= |s|
  {
    if s == [] then []
    else BreakChar(s[0]) + BreakLines(s[1..])
  }

  /** No newline survives the pass. */
  lemma {:induction false} BreakLinesNoNewline(s: string)
    ensures '\n' !in BreakLines(s)
  {
    if s != [] {
      BreakLinesNoNewline(s[1..]);
    }
  }

  /** Text without newlines passes through unchanged. */
  lemma {:induction false} BreakLinesKeepsPlainText(s: string)
    requires '\n' !in s
    ensures BreakLines(s) == s
  {
    if s != [] {
      assert forall k :: 0 <= k < |s| - 1 ==> s[1..][k] == s[k + 1];
      BreakLinesKeepsPlainText(s[1..]);
      assert s == [s[0]] + s[1..];
    }
  }

  /** The newline pass handles the first character on its own. */
  lemma BreakLinesCons(c: char, s: string)
    ensures BreakLines([c] + s) == BreakChar(c) + BreakLines(s)
  {
  }

  /** The newline pass works piece by piece: it distributes over
      concatenation. */
  lemma {:induction false} BreakLinesAppend(a: string, b: string)
    ensures BreakLines(a + b) == BreakLines(a) + BreakLines(b)
    decreases |a|
  {
    if a == [] {
      assert a + b == b;
    } else {
      var c, rest := a[0], a[1..];
      assert a == [c] + rest && a + b == [c] + (rest + b);
      BreakLinesCons(c, rest);
      BreakLinesCons(c, rest + b);
      BreakLinesAppend(rest, b);
      var x, y, z := BreakChar(c), BreakLines(rest), BreakLines(b);
      assert BreakLines(a + b) == x + (y + z);
      assert BreakLines(a) == x + y;
      assert x + (y + z) == (x + y) + z;
    }
  }

  /** A single newline turns into exactly `<br>`, and every other character
      is kept. */
  lemma BreakLinesChar(c: char)
    ensures BreakLines([c]) == if c == '\n' then "<br>" else [c]
  {
  }

  /** `formatTextToHtml`: the empty text renders as the empty string;
      otherwise the markdown passes run and the newline pass comes last.
      `markdownPasses` stands for the bold, italic, link, list and `<ul>`
      regular-expression replacements, which this model does not describe. */
  function FormatTextToHtml(text: string, markdownPasses: string -> string): (html: string)
    ensures text == "" ==> html == ""
    ensures text != "" ==> html == BreakLines(markdownPasses(text))
    ensures '\n' !in html
    ensures text != "" && '\n' !in markdownPasses(text) ==> html == markdownPasses(text)
  {
    if text == "" then ""
    else
      var m := markdownPasses(text);
      BreakLinesNoNewline(m);
      if '\n' !in m then BreakLinesKeepsPlainText(m); BreakLines(m)
      else BreakLines(m)
  }
}
