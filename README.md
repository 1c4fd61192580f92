# Telegram overlap detector — verified model of the username pipeline

The application takes screenshots of two Telegram groups ("Coin A" and
"Coin B"). It runs OCR on each screenshot and collects every word of the form
`@` followed by 5 to 32 characters of `[a-zA-Z0-9_]`. Each group's usernames
are gathered into a set. The intersection of the two sets is reported as a
sign of coordinated accounts. The overlap can be downloaded as text: the
sorted usernames, each prefixed with `@`, one per line.

This project models that pipeline in Dafny and proves its properties:

- `Text` models Python's `str.splitlines()`, `str.strip()` and `str.split()`
  with whitespace taken from CPython's `str.isspace` table. `WordsOfLines`
  proves that splitting into lines, stripping each line and splitting each
  line into words visits exactly the words of `text.split()`, in order. So
  the line loop of `extract_usernames` is proved equivalent to a scan of the
  text's words, not assumed to be.
- `Handles` models `USERNAME_REGEX` and the set of bodies the matching words
  contribute. This includes the fact that Python's `$` also matches just
  before a final newline. On split words that case cannot occur, and
  `MatchOnWord` proves it.
- `Extraction` models `extract_usernames`. The `for line` loop is the method
  `ExtractUsernames`; the `for word` loop nested in it is the method
  `AddHandles`, which it calls once per line. `AddHandles` is proved to add
  exactly `HandlesIn` of the line's words to the set it is given, and
  `ExtractUsernames` is proved equal to `UsernamesOf`, a function of the OCR
  outcome. An OCR failure (`None`) yields the empty set. Because the result is
  a function of the text, running it twice on the same text gives the same
  set.
- `Groups` models the per-group `update` loops and the intersection.
- `Ordering` models `sorted()` on strings: code-point lexicographic order,
  proved to be a total order, with the sorted listing proved unique.
- `Export` models the `"\n".join` download text.
- `Detector` models one page run. Both groups are processed only when both
  have uploads, and the download is offered only when the overlap is
  non-empty.

`scam_detector_app.py` has no wallet-address extraction, no "last seen"
filtering, no keyword scoring, no manual wallet input and no first-token
policy; only the username pipeline is modelled.

## Model

| member | source | states |
|---|---|---|
| `Text.IsSpace` | scam_detector_app.py:23 | `str.isspace()` on one character, the separator test of `split()` with no arguments: CPython's whitespace table (`\t`..`\r`, `\x1c`..`' '`, `\x85`, `\xa0`, `\u1680`, `\u2000`..`\u200a`, `\u2028`, `\u2029`, `\u202f`, `\u205f`, `\u3000`) |
| `Text.BoundaryIsSpace` | scam_detector_app.py:20 | every `splitlines` boundary is whitespace to `split()` |
| `Text.Words` | scam_detector_app.py:23 | the words of `line.split()` are non-empty and hold no whitespace; with `WordsOfWord` and `WordsAroundSpace` this fixes `split()` on every input |
| `Text.WordEndBeforeSpace` | scam_detector_app.py:23 | a word of `a + [c] + b`, for whitespace `c`, that starts `a` ends where it ends in `a` |
| `Text.WordEndAll` | scam_detector_app.py:23 | in a text with no whitespace the first word runs to its end |
| `Text.WordsOfWord` | scam_detector_app.py:23 | `w.split() == [w]` for a non-empty `w` without whitespace |
| `Text.WordBetweenSpaces` | scam_detector_app.py:23 | a whitespace-free run with whitespace on both sides is one of the words of `split()` |
| `Text.WordsAroundSpace` | scam_detector_app.py:23 | the words of `a + [c] + b` for whitespace `c` are the words of `a` followed by those of `b` |
| `Text.TrimStart` | scam_detector_app.py:20 | `lstrip()`: the input after its leading-whitespace count; its properties are `TrimStartSuffix` and `WordsTrimStart` |
| `Text.TrimEnd` | scam_detector_app.py:20 | `rstrip()`: the input before its trailing-whitespace count; its properties are `TrimEndPrefix` and `WordsTrimEnd` |
| `Text.Strip` | scam_detector_app.py:20 | `line.strip()` as `rstrip()` after `lstrip()`; its properties are `StripSlice`, `StripEnds`, `StripCutsSpace` and `WordsStrip` |
| `Text.LeadingSpaceRun` | scam_detector_app.py:20 | the leading-whitespace count covers whitespace only and stops at the first other character |
| `Text.TrailingSpaceRun` | scam_detector_app.py:20 | the trailing-whitespace count covers whitespace only and stops at the last other character |
| `Text.TrimStartSuffix` | scam_detector_app.py:20 | `lstrip()` leaves a suffix of the input that does not start with whitespace, and only whitespace was removed |
| `Text.TrimEndPrefix` | scam_detector_app.py:20 | `rstrip()` leaves a prefix of the input that does not end with whitespace, and only whitespace was removed |
| `Text.StripSlice` | scam_detector_app.py:20 | `line.strip()` is the slice of the line that starts right after its leading whitespace |
| `Text.StripEnds` | scam_detector_app.py:20 | neither end of `line.strip()` is whitespace |
| `Text.StripCutsSpace` | scam_detector_app.py:20 | only whitespace lies before and after `line.strip()` in the line |
| `Text.WordsTrimStart` | scam_detector_app.py:20-23 | removing leading whitespace does not change the words |
| `Text.WordsTrimEnd` | scam_detector_app.py:20-23 | removing trailing whitespace does not change the words |
| `Text.WordsStrip` | scam_detector_app.py:20 | stripping a line does not change its words |
| `Text.SplitLines` | scam_detector_app.py:20 | `splitlines()` yields no lines exactly for empty text |
| `Text.StripAll` | scam_detector_app.py:20 | `[line.strip() for line in ...]` keeps one entry per line |
| `Text.LinesWords` | scam_detector_app.py:22-23 | the words the nested `for line` / `for word` loops visit, line after line; `WordsOfLines` proves them equal to `text.split()` |
| `Text.LinesWordsAppend` | scam_detector_app.py:22-23 | visiting the words of two runs of lines in turn is visiting the words of their concatenation |
| `Text.WordsOfLines` | scam_detector_app.py:20-23 | the words of the stripped lines are exactly the words of the whole text, in order |
| `Handles.MatchesHandle` | scam_detector_app.py:15 | `USERNAME_REGEX.match(word)`: `@`, then 5 to 32 characters of `[a-zA-Z0-9_]`, then the end of the word or a final newline (Python's `$`); `MatchOnWord` reduces it on split words |
| `Handles.UsernameShape` | scam_detector_app.py:15 | a username holds no `@`, no newline and no whitespace |
| `Handles.MatchOnWord` | scam_detector_app.py:15 | on a whitespace-free word the pattern holds if and only if the word is `@` followed by a 5 to 32 character body of `[a-zA-Z0-9_]` |
| `Handles.DollarBeforeFinalNewline` | scam_detector_app.py:15 | `$` also accepts a candidate ending in a newline whose body is then no username |
| `Handles.HandlesIn` | scam_detector_app.py:23-25 | the entries `usernames.add(word[1:])` makes for the matching words, visited in order; `HandlesInWitness` and `HandlesInMembership` characterise it |
| `Handles.HandlesInWitness` | scam_detector_app.py:23-25 | a body is collected if and only if some visited word matches and has that body |
| `Handles.HandlesInMembership` | scam_detector_app.py:23-25 | for split words, `u` is collected if and only if `u` is a username and `"@" + u` is one of the words |
| `Handles.HandlesInSound` | scam_detector_app.py:23-25 | every collected entry is a username written as the word `"@" + u` |
| `Handles.HandlesInComplete` | scam_detector_app.py:23-25 | every username written as the word `"@" + u` is collected |
| `Handles.HandlesInAreUsernames` | scam_detector_app.py:25 | every collected entry has length 5 to 32 and only characters of `[a-zA-Z0-9_]` |
| `Handles.HandlesInSnoc` | scam_detector_app.py:24-25 | one more word adds its body exactly when it matches |
| `Handles.HandlesInAppend` | scam_detector_app.py:22-25 | the words of two runs contribute the union of what each contributes |
| `Handles.HandlesInSameWords` | scam_detector_app.py:22-25 | reordering or repeating words does not change the collected set |
| `Handles.NonHandleWordIgnored` | scam_detector_app.py:24 | a whitespace-free word that is not `@` followed by a username (no leading `@`, a second `@`, any character outside `[a-zA-Z0-9_]`, a body shorter than 5 or longer than 32) can be removed without changing the result |
| `Extraction.UsernamesOf` | scam_detector_app.py:17-29 | every extracted entry is a username; OCR failure yields the empty set |
| `Extraction.ExtractUsernames` | scam_detector_app.py:17-29 | the nested line/word loops build exactly `UsernamesOf` of the OCR outcome |
| `Extraction.AddHandles` | scam_detector_app.py:23-25 | the `for word` loop adds exactly the bodies of the matching words to the set |
| `Extraction.NextWord` | scam_detector_app.py:23-25 | one step of the word loop adds the matching word's body |
| `Extraction.NextLine` | scam_detector_app.py:22-23 | one step of the line loop adds what that line's words contribute |
| `Extraction.ExtractedMembership` | scam_detector_app.py:20-25 | `u` is extracted if and only if `u` is a username and `"@" + u` is one of the whitespace-separated words of the text |
| `Extraction.ExtractedSplit` | scam_detector_app.py:20-26 | text split at any whitespace character yields the union of both parts |
| `Extraction.ExtractedLineOrder` | scam_detector_app.py:20-26 | swapping two lines or words does not change the result |
| `Extraction.ExtractedDuplicate` | scam_detector_app.py:20-26 | repeating a line or word does not change the result |
| `Extraction.ExtractedSameWords` | scam_detector_app.py:20-26 | texts with the same words, in any order or multiplicity, yield the same set |
| `Groups.GroupUsernames` | scam_detector_app.py:38-49 | a group's set, the union of its images' extractions, holds only usernames |
| `Groups.CollectGroup` | scam_detector_app.py:42-44 | the per-image `update` loop builds exactly the union of the extractions |
| `Groups.GroupMembership` | scam_detector_app.py:38-49 | a username is in a group if and only if some image of the group yields it |
| `Groups.GroupOrderIndependent` | scam_detector_app.py:42-44 | groups with the same images, in any order or repeated, yield the same set |
| `Groups.GroupPermutation` | scam_detector_app.py:42-44 | a permutation of the uploads yields the same set |
| `Groups.GroupAppend` | scam_detector_app.py:42-44 | processing two runs of images yields the union of their sets |
| `Groups.FailedImageSkipped` | scam_detector_app.py:27-29 | an image whose OCR fails contributes nothing, and the images after it still count |
| `Groups.GroupGrows` | scam_detector_app.py:44 | a group's set only grows as more images are processed |
| `Groups.Overlap` | scam_detector_app.py:51 | the overlap is a subset of both group sets |
| `Groups.OverlapExact` | scam_detector_app.py:51 | the overlap holds exactly the usernames present in both sets |
| `Groups.OverlapSymmetric` | scam_detector_app.py:51 | the overlap is the same with A and B swapped |
| `Groups.SeenInGroup` | scam_detector_app.py:38-49 | a group holds `u` if and only if `u` is a username written as the word `"@" + u` in one of its screenshots |
| `Groups.OverlapOfGroups` | scam_detector_app.py:37-51 | `u` overlaps if and only if it is a username written as `"@" + u` in some screenshot of each group |
| `Ordering.Below` | scam_detector_app.py:66 | Python's `<=` on `str`: code point by code point, a proper prefix before its extensions |
| `Ordering.Precedes` | scam_detector_app.py:66 | Python's `<` on `str`: `<=` and not equal |
| `Ordering.BelowReflexive` | scam_detector_app.py:66 | string order: every string is `<=` itself |
| `Ordering.BelowAntisymmetric` | scam_detector_app.py:66 | string order: `a <= b` and `b <= a` force `a == b` |
| `Ordering.BelowTransitive` | scam_detector_app.py:66 | string order is transitive |
| `Ordering.BelowTotal` | scam_detector_app.py:66 | any two strings are comparable |
| `Ordering.LeastExists` | scam_detector_app.py:66 | every non-empty finite set of strings has a least element |
| `Ordering.Least` | scam_detector_app.py:66 | the least element belongs to the set and is `<=` every member |
| `Ordering.Sorted` | scam_detector_app.py:66 | `sorted(overlap)` lists each element exactly once, in strictly increasing order |
| `Ordering.SortedUnique` | scam_detector_app.py:66 | `Sorted` is the only strictly increasing listing of the set |
| `Ordering.HeadIsLeast` | scam_detector_app.py:66 | a strictly increasing listing starts with the least element |
| `Ordering.TailLists` | scam_detector_app.py:66 | after its first element, a strictly increasing listing lists the rest of the set |
| `Export.JoinLines` | scam_detector_app.py:66 | `"\n".join(lines)`: the lines with one newline between neighbours; `JoinSplit` and `LastLine` prove its properties |
| `Export.ExportText` | scam_detector_app.py:66 | the download text `"\n".join([f"@{user}" for user in sorted(overlap)])`; `ExportLines` and `ExportNoTrailingNewline` prove its properties |
| `Export.Prefixed` | scam_detector_app.py:66 | the `@{user}` list has one entry per user, each `"@" + user` |
| `Export.SplitNewlines` | scam_detector_app.py:66 | the inverse of the join: splitting at newlines yields at least one piece |
| `Export.NewlineIndex` | scam_detector_app.py:66 | the first newline position, with no newline before it |
| `Export.NewlineIndexNone` | scam_detector_app.py:66 | text without a newline has no newline position |
| `Export.NewlineIndexAt` | scam_detector_app.py:66 | in `a + "\n" + b` with no newline in `a`, the first newline follows `a` |
| `Export.SplitAt` | scam_detector_app.py:66 | splitting `a + "\n" + b` at newlines, with no newline in `a`, yields `a` and then the pieces of `b` |
| `Export.JoinSplit` | scam_detector_app.py:66 | splitting the `"\n".join` of newline-free lines at newlines gives the lines back |
| `Export.NoNewlineInLines` | scam_detector_app.py:66 | no `@`-prefixed username line holds a newline |
| `Export.PrefixedMembership` | scam_detector_app.py:66 | `"@" + u` is a line exactly when `u` is listed |
| `Export.ExportLines` | scam_detector_app.py:66 | the download has exactly one line per overlapping username, in strictly increasing order, each `"@" + u`, with no header |
| `Export.LastLine` | scam_detector_app.py:66 | a newline join ends with its last line |
| `Export.ExportNoTrailingNewline` | scam_detector_app.py:66 | the download text is non-empty and does not end in a newline |
| `Detector.Analyze` | scam_detector_app.py:37-69 | both groups are processed only when both have uploads; the download is offered exactly when the overlap is non-empty, and its lines are the sorted `@`-prefixed overlap |

## Left out

- Streamlit page setup, titles, markdown, metrics, columns, expanders, upload widgets, spinners, and the warning, success and info banners (scam_detector_app.py:2, 7-13, 31-35, 53-58, 60, 70-81). These are presentation. The metrics are the sizes of the two sets in `Detector.Report`.
- The per-user `t.me` links and the sorted listings of all users of each group (scam_detector_app.py:61-62, 73-79). These are presentation; they use the same `sorted` as the download.
- The download button's file name, MIME type and the encoding of the text into bytes (scam_detector_app.py:64-69). Only the text itself is modelled.
- `pytesseract.image_to_string` and `PIL.Image.open`. These are foreign calls. Each image's OCR outcome is an input `Option<string>`, with `None` for an OCR exception.
- A failure of `Image.open`, which happens outside the `try` and would abort the run. It is not modelled.
- The `st.error` message in the exception handler. Only its result, the empty set, is modelled.
- Whitespace uses CPython's current `str.isspace` table as a fixed predicate (`Text.IsSpace`). Changes of that table between Unicode versions are not modelled.
- Usernames are compared case-sensitively, as in the code. No case folding is modelled.
- Wallet fragments, full wallet addresses, manual wallet input, "last seen" noise filtering, suspicion keywords and a first-token extraction policy. `scam_detector_app.py` has none of them, so there is nothing to model.
- Text.StripAll: its contract states only that there is one entry per line. That each entry is the stripped line is given by its definition; stating it as an `ensures` made the extraction loop's proof too expensive.
