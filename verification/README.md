# WhatsApp-style markup scanner

A Dafny model of the inline-markup scanner of WhatsappFormatter. The scanner turns raw
text containing `*` (bold), `~` (strikethrough) and `_` (italic) into an output text plus
a list of flags `Flag(kind, start, end)`, in two variants:

- **display mode** (`extractFlagsForTextView`) drops both marker characters of every
  recognised pair;
- **edit mode** (`extractFlagsForEditText`) keeps every character, and greys the two
  marker glyphs around each styled range.

Both are one left-to-right pass with an input index `i`, an output index `j` and one
pending start per kind. A marker closes its kind when that kind is pending. Otherwise it
opens the kind exactly when the same-line lookahead `hasFlagSameLine(text, c, i + 1)`
succeeds. In any other case it is copied as a literal.

Layout:

- `wrappers.dfy`: `Option`.
- `whatsapp_util.dfy` (module `WhatsappUtil`): the marker constants, `Kind`, `Flag`,
  `IsFlagged`, `GetText`, and the lookahead. The lookahead has a specification,
  `FirstStop` and `HasFlagSameLine`, and a loop in the shape of the Java
  `hasFlagSameLine`, `HasFlagSameLineLoop`.
- `scan_spec.dfy` (module `ScanSpec`): the scanner as a pure fold. `Step` consumes one
  character, `ScanTo(mode, text, n)` is the state after `n` characters, and `Scan` is the
  whole pass. `Annotate` is the span application: one style per flag, plus in edit mode
  the grey ranges `[start-1, start)` and `[end, end+1)`.
- `scan_properties.dfy` (module `ScanProperties`): step invariants for each mode and for
  the agreement of the two modes, proved by induction on `n`, with the whole-scan
  consequences.
- `whatsapp_view_compat.dfy` (module `WhatsappViewCompat`): the two entry points as
  imperative loops (`DisplayPass`, `EditPass`). The loops keep the `INVALID_INDEX`
  sentinel for unset starts, and the display loop uses `continue`, as `extractFlagsForTextView` does.
  Each entry point is proved equal to `Scan` followed by `Annotate`.
- `scan_examples.dfy` (module `ScanExamples`): concrete scans.

Flag ends are exclusive, as the code stores them: `end = j`, which is then passed as the
end argument of `setSpan`. The `SPAN_INCLUSIVE_INCLUSIVE` mode passed alongside does not
make the range inclusive: it only decides whether text typed at either edge joins the
span. So `hi *yo*` gives `Flag(Bold, 3, 5)`, covering `yo`.

Re-scanning display output is **not** a fixed point in general. `**y*x*` displays as
`*yx*` with `y` bold, and scanning `*yx*` again drops both remaining markers
(`ScanExamples.RescanIsNotFixedPoint`). The model proves the fixed point only for
marker-free input (`ScanProperties.MarkerFreeFixedPoint`).

A closing marker is never checked for being on the opener's line. The model proves such
a check would be redundant. The lookahead stops at the first newline or same-kind marker,
and a pending kind closes at the very next same-kind marker. So every recognised pair has
no newline inside it (`EditFlagsFramed`, `DisplayFlagsInBounds`).

## Model

| member | source | states |
|---|---|---|
| WhatsappUtil.Marker | views/src/main/java/com/cooltechworks/views/WhatsappUtil.java:41-45 | each kind's marker is `*`, `~` or `_`, never a newline or a space |
| WhatsappUtil.KindOf | views/src/main/java/com/cooltechworks/views/WhatsappViewCompat.java:215-241 | a character triggers kind `k` exactly when it is `k`'s marker, so the three per-kind tests are mutually exclusive |
| WhatsappUtil.IsFlagged | views/src/main/java/com/cooltechworks/views/WhatsappUtil.java:56-62 | true for any index outside `[0, \|text\|)`; inside, true iff the character is a space, a newline or a marker |
| WhatsappUtil.GetText | views/src/main/java/com/cooltechworks/views/WhatsappUtil.java:69-76 | the returned string has the list's length and its characters in order |
| WhatsappUtil.FirstStop | views/src/main/java/com/cooltechworks/views/WhatsappUtil.java:87-96 | the first index at or after `k` holding a newline or the flag: nothing before it is a stop; it is `\|s\|` when there is none |
| WhatsappUtil.HasFlagSameLineLoop | views/src/main/java/com/cooltechworks/views/WhatsappUtil.java:85-99 | the loop returns true iff the first newline-or-flag from `fromIndex` is the flag and lies strictly after `fromIndex` |
| WhatsappUtil.HasFlagSameLineWitness | views/src/main/java/com/cooltechworks/views/WhatsappUtil.java:85-99 | the lookahead succeeds iff some later index on the line holds the flag and nothing between holds a newline or the flag |
| WhatsappUtil.NoLookaheadPastEnd | views/src/main/java/com/cooltechworks/views/WhatsappUtil.java:87-98 | starting at or past the end of the text, the lookahead is false |
| WhatsappUtil.AdjacentNeverOpens | views/src/main/java/com/cooltechworks/views/WhatsappUtil.java:93-94 | a flag right at `fromIndex` makes the lookahead false, so `**` never opens |
| WhatsappUtil.NewlineBlocks | views/src/main/java/com/cooltechworks/views/WhatsappUtil.java:89-90 | a newline before any flag makes the lookahead false |
| ScanSpec.Step | views/src/main/java/com/cooltechworks/views/WhatsappViewCompat.java:212-256 | one character appends at most that character (always, in edit mode, and always for a non-marker), and records at most one new flag after the old ones |
| ScanSpec.ScanTo | views/src/main/java/com/cooltechworks/views/WhatsappViewCompat.java:212-334 | after `n` characters the output index `j` is at most `n`, and equals `n` in edit mode |
| ScanSpec.Scan | views/src/main/java/com/cooltechworks/views/WhatsappViewCompat.java:201-258 | the output text is never longer than the input |
| ScanSpec.Annotate | views/src/main/java/com/cooltechworks/views/WhatsappViewCompat.java:262-362 | flag `q` contributes the style on `[start, end)`; in edit mode it also contributes grey on `[start-1, start)` and `[end, end+1)`, in flag order |
| ScanProperties.DisplayInvariant | views/src/main/java/com/cooltechworks/views/WhatsappViewCompat.java:212-256 | after each display step: output length + 2·flags + pending slots = characters consumed; flags lie in the output; each pending kind has a closer ahead on its line |
| ScanProperties.EditInvariant | views/src/main/java/com/cooltechworks/views/WhatsappViewCompat.java:298-334 | after each edit step: output = consumed input; every flag is framed by its marker; each pending start follows its marker and its closer is still ahead |
| ScanProperties.AgreeInvariant | views/src/main/java/com/cooltechworks/views/WhatsappViewCompat.java:301-331 | after every prefix, both modes have the same pending kinds and pairwise matching flags |
| ScanProperties.NothingPendingAtEnd | views/src/main/java/com/cooltechworks/views/WhatsappViewCompat.java:216-226 | in both modes every opened kind is closed before the input ends |
| ScanProperties.DisplayLengthAccounting | views/src/main/java/com/cooltechworks/views/WhatsappViewCompat.java:212-256 | display output length + 2 × number of flags = input length |
| ScanProperties.DisplayIsSubsequence | views/src/main/java/com/cooltechworks/views/WhatsappViewCompat.java:254-255 | display output is the input with some characters deleted |
| ScanProperties.DisplayFlagsInBounds | views/src/main/java/com/cooltechworks/views/WhatsappViewCompat.java:218-224 | display flags satisfy `0 <= start <= end <= \|output\|`, and their ranges hold no newline and no marker of their own kind |
| ScanProperties.EditKeepsText | views/src/main/java/com/cooltechworks/views/WhatsappViewCompat.java:332-336 | edit output is exactly the input text |
| ScanProperties.EditFlagsFramed | views/src/main/java/com/cooltechworks/views/WhatsappViewCompat.java:302-310 | edit flags satisfy `1 <= start < end < \|text\|` with the flag's marker at `start-1` and at `end`, and no newline or same marker in between |
| ScanProperties.FlagsInClosingOrder | views/src/main/java/com/cooltechworks/views/WhatsappViewCompat.java:222-224 | in both modes flag ends never decrease, and a flag starts at or after the end of every earlier flag of its kind |
| ScanProperties.ModesAgree | views/src/main/java/com/cooltechworks/views/WhatsappViewCompat.java:215-253 | both modes give equally many flags with the same kinds in the same order; each display index is display's output length at the matching edit-mode marker |
| ScanProperties.MarkerFreeUnchanged | views/src/main/java/com/cooltechworks/views/WhatsappViewCompat.java:212-258 | input without `*`, `~`, `_` comes back unchanged with no flags, in either mode |
| ScanProperties.MarkerFreeFixedPoint | views/src/main/java/com/cooltechworks/views/WhatsappViewCompat.java:201-258 | for marker-free input, re-scanning the display output gives the same result |
| ScanProperties.LiteralMarker | views/src/main/java/com/cooltechworks/views/WhatsappViewCompat.java:217-220 | a marker of a non-pending kind whose lookahead fails is appended as a literal; no slot changes and no flag is recorded |
| ScanProperties.PairRecognised | views/src/main/java/com/cooltechworks/views/WhatsappViewCompat.java:213-224 | a marker of a non-pending kind whose same-line lookahead succeeds opens a range, and its pair is recorded as a flag of that kind: starting just after the marker in edit mode or at the current output length in display mode, and ending at the output length reached at the first same-line closing marker |
| ScanProperties.EditAnnotationsFramed | views/src/main/java/com/cooltechworks/views/WhatsappViewCompat.java:343-358 | every edit-mode range is within the text; each grey range covers one marker glyph; each style range has its marker on both sides |
| WhatsappViewCompat.DisplayPass | views/src/main/java/com/cooltechworks/views/WhatsappViewCompat.java:203-256 | the display loop, with its `INVALID_INDEX` slots and `continue`s, yields exactly the characters and flags of the pure display scan |
| WhatsappViewCompat.EditPass | views/src/main/java/com/cooltechworks/views/WhatsappViewCompat.java:289-334 | the edit loop, with its `INVALID_INDEX` slots and `j + 1` starts, yields exactly the characters and flags of the pure edit scan |
| WhatsappViewCompat.ExtractFlagsForTextView | views/src/main/java/com/cooltechworks/views/WhatsappViewCompat.java:201-278 | the loop computes the pure display scan and its styles: length accounting, subsequence, ranges within the output, marker-free input unchanged |
| WhatsappViewCompat.ExtractFlagsForEditText | views/src/main/java/com/cooltechworks/views/WhatsappViewCompat.java:287-365 | the loop computes the pure edit scan: text unchanged, three annotations per display-mode flag, all in bounds, greys on marker glyphs |
| ScanExamples.DisplayBoldWord | views/src/main/java/com/cooltechworks/views/WhatsappViewCompat.java:215-226 | `hi *yo*` displays as `hi yo` with bold on `[3, 5)` |
| ScanExamples.EditBoldWord | views/src/main/java/com/cooltechworks/views/WhatsappViewCompat.java:301-310 | `*bold*` in edit mode stays `*bold*` with bold on `[1, 5)` |
| ScanExamples.NoCloserOnLine | views/src/main/java/com/cooltechworks/views/WhatsappUtil.java:89-90 | `*a\nb*` has no same-line closer and comes back unchanged and unflagged |
| ScanExamples.EmptyRanges | views/src/main/java/com/cooltechworks/views/WhatsappViewCompat.java:218-250 | `*~_~_*` displays as the empty text with three empty ranges, in closing order |
| ScanExamples.RescanIsNotFixedPoint | views/src/main/java/com/cooltechworks/views/WhatsappViewCompat.java:212-256 | `**y*x*` displays as `*yx*`, and re-scanning that gives `yx`, so display is not idempotent |

## Left out

- `applyFormatting` (both overloads), `format`, the `send*` notification fan-out and the
  listener add/remove wrappers of `WhatsappViewCompat.java`. They are Android
  `TextWatcher`/`Handler` plumbing with a 220 ms debounce and selection restore.
- `WhatsAppEditText.java` is not part of this model. It is an `EditText` subclass driven
  by delayed callbacks.
- The sample activity is not part of this model. It is a demo screen.
- `SpannableStringBuilder`, `StyleSpan`, `StrikethroughSpan`, `ForegroundColorSpan`,
  `Typeface` and `Color` are represented as plain `Annotation` records: a kind or grey,
  plus a half-open range. The `SPAN_INCLUSIVE_INCLUSIVE` flag affects only how a span
  grows under later edits. No later edits are modelled, so neither is the flag.
- Text is a `seq<char>` with one `char` per UTF-16 code unit, as `toCharArray` yields
  them. A Dafny `char` is a Unicode scalar value and cannot hold a surrogate half, so a
  character outside the Basic Multilingual Plane (an emoji, say) is modelled as two
  `char`s, each standing in for one surrogate half: any character that is neither a
  marker nor a newline. The scan treats all such characters alike, so indices still
  count code units as the Java does. Feeding scalar values instead would shift every
  later index.
- Java `int` overflow is not modelled. Indices stay below the text length, which fits
  in an `int`.
- The display loop tests the three markers with independent `if`s; the edit loop uses
  `else if`. The pure `Step` dispatches once on `KindOf`. The imperative methods keep
  the test structure of `extractFlagsForTextView` and `extractFlagsForEditText`.
- HasFlagSameLine: `fromIndex` is a `nat`. The only callers pass `i + 1 >= 1`, so
  negative starting indices are not modelled.
- WhatsappUtil.HasFlagSameLineWitness: stated only for a flag other than the newline.
  That holds for every caller. For the newline itself the loop always returns false.
