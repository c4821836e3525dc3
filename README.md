# Section numbering for the generated course site

`_section_numbers.py` is a post-processing script for a rendered course website in
`docs/`. It collects the `.html` pages, drops `docs/index.html`, sorts what is left, and
walks the chapters in that order with a counter starting at 0. In each chapter it
rewrites the section-number headers that start with `1` so that they carry the counter,
and it labels two menu entries with `1 ` and `2 `. Last, it points the index page's
redirect from `02-statistics1.html` to `00-index.html`.

The model is written in Dafny in five modules:

- `Wrappers` (`wrappers.dfy`): `Option`, `Result` and `Outcome`. They stand for the
  `ValueError` that `list.remove` raises.
- `Text` (`text.dfy`): Python's `str.replace` as `ReplaceAll` (left to right,
  non-overlapping, replacement never re-scanned). It is proved equal to a
  reference definition built from `Find`, `Split` and `Join`.
- `Decimal` (`decimal.dfy`): `str(n)` for the counter, and its inverse `Parse`.
- `Paths` (`paths.dfy`): `os.path.basename`, the `.html` filter, `list.remove` and
  `list.sort`. `list.sort` uses code-point order on strings and is proved to have
  exactly one result.
- `SectionNumbers` (`section_numbers.dfy`):
  - the search and replacement strings;
  - the per-chapter transformation;
  - `Script`, a function giving the whole run's effect on the directory, with lemmas
    about it;
  - the class `Site`. Its fields are the script's global state: the directory
    contents, `html_files` and `cnt`. Each method of `Site` is one block of the script,
    and each is proved against the functions above.

The directory is a map from path to file content. The entries that `glob.glob('docs/*')`
returns are passed in as a parameter.

The header replacement consumes the `1` it matches. For counter 1, a header `1.2` is
therefore written back as `1.2`, not as `11.2`: the `1` is replaced by `str(1)`, so the
counter's digits take the place of the first digit of the section number rather than
being inserted in front of it. The model follows the code
(`SectionNumbers.SecondChapterHeadersUnchanged`, `SectionNumbers.RenumberSingleHeader`).

## Model

| member | source | states |
|---|---|---|
| Text.ReplaceAllIsJoinOfSplit | _section_numbers.py:31-32 | `s.replace(pat, rep)` equals `rep.join(s.split(pat))` for every text and every non-empty pattern: the scanning replacement agrees with the find-and-split reference definition |
| Text.ReplaceAll | _section_numbers.py:31-32 | `str.replace`, the operation behind lines 32, 39, 42 and 55, given by its definition: a left-to-right scan that replaces each non-overlapping occurrence and never re-scans a replacement. It is specified by `Text.ReplaceAllIsJoinOfSplit`, `Text.ReplaceAllAround` and `Text.ReplaceAllNoMatch` |
| Text.ReplaceAllNoMatch | _section_numbers.py:31-42 | text that does not contain the pattern is returned unchanged |
| Text.ReplaceAllSkip | _section_numbers.py:31-32 | text before the first occurrence of the pattern is copied through unchanged |
| Text.ReplaceAllByItself | _section_numbers.py:31-32 | replacing a pattern by itself leaves any text unchanged |
| Text.ReplaceAllLength | _section_numbers.py:31-42 | the result is longer than the input by `|rep| - |pat|` per replaced occurrence, where the number of occurrences is `s.count(pat)` |
| Text.FindSpec | _section_numbers.py:31-32 | `s.find(pat)` gives None, which stands for the `-1` that `s.find` returns, exactly when the pattern does not occur; otherwise it returns an index where the pattern occurs, and no earlier index has an occurrence |
| Text.ReplaceAllAtFirst | _section_numbers.py:31-32 | at the first occurrence of the pattern, the text before it is kept, the replacement is inserted, and the scan resumes right after the matched text |
| Text.ReplaceAllAround | _section_numbers.py:31-32 | in a text `before + pat + after` where `before` starts no occurrence, the result is `before`, then the replacement, then `after` with its own occurrences replaced |
| Text.SplitPiecesFree | _section_numbers.py:31-32 | no piece produced by splitting at the pattern contains the pattern |
| Text.JoinSplitRoundTrip | _section_numbers.py:31-32 | joining the pieces with the pattern gives back the original text |
| Decimal.Str | _section_numbers.py:32 | `str(cnt)` is non-empty and made only of decimal digits; it starts with `0` exactly when the counter is zero, and then it is `0` alone. With `Decimal.ParseStr` and `Decimal.StrUnique` this fixes `str(n)` for every `n` |
| Decimal.StrUnique | _section_numbers.py:32 | a digit string with no leading `0` (or `0` itself) that reads back as `n` is `str(n)`: no other spelling of the counter is possible |
| Decimal.ParseStr | _section_numbers.py:32 | reading back the digits written for the counter gives the counter |
| Paths.Basename | _section_numbers.py:13 | the basename is a suffix of the path that holds no `/`; when it is shorter than the path, a `/` stands right before it |
| Paths.BasenameTestIsHtml | _section_numbers.py:13 | testing the basename for the `.html` suffix is the same as testing the whole path |
| Paths.FilterHtml | _section_numbers.py:11-14 | the kept list is no longer than the listing, and every kept entry is an `.html` path |
| Paths.FilterHtmlCount | _section_numbers.py:11-14 | each `.html` path is kept exactly as many times as it is listed; every other path is dropped |
| Paths.FilterHtmlMembers | _section_numbers.py:11-14 | a path is kept if and only if it is listed and ends in `.html`, and the kept entries form a sub-multiset of the listing |
| Paths.IndexOf | _section_numbers.py:17 | the first position of the element: it holds the element, and no earlier position does |
| Paths.RemoveFirst | _section_numbers.py:17 | `list.remove` fails exactly when the element is absent; otherwise it deletes the first occurrence and nothing else |
| Paths.LexLe | _section_numbers.py:18 | the string order `list.sort` uses, given by its definition (code point by code point, a proper prefix first). Its properties are `Paths.LexLeTotal`, `Paths.LexLeAntisymmetric` and `Paths.LexLeTransitive` |
| Paths.LexLeTotal | _section_numbers.py:18 | any two paths are comparable in string order |
| Paths.LexLeAntisymmetric | _section_numbers.py:18 | two paths each at or below the other are equal |
| Paths.LexLeTransitive | _section_numbers.py:18 | string order is transitive |
| Paths.Insert | _section_numbers.py:18 | inserting into an ascending list keeps it ascending and adds exactly the new element |
| Paths.Sort | _section_numbers.py:18 | `list.sort()` yields an ascending permutation of the list |
| Paths.SortedUnique | _section_numbers.py:18 | two ascending lists holding the same elements are equal |
| Paths.SortIgnoresOrder | _section_numbers.py:18 | the sorted list depends only on which paths there are and how often each occurs |
| SectionNumbers.ChapterListMembers | _section_numbers.py:17-18 | removing the index page and sorting fails exactly when the index page is absent; otherwise the result is ascending and holds the `.html` list less one copy of the index page |
| SectionNumbers.Chapters | _section_numbers.py:11-18 | the chapter list is absent exactly when `docs/index.html` was not listed; otherwise it is ascending, it holds the listed `.html` entries less one copy of the index page, and each of its entries is a listed `.html` path |
| SectionNumbers.ChaptersIgnoreListingOrder | _section_numbers.py:11-18 | two listings holding the same entries give the same chapter list, whatever order the glob returns them in |
| SectionNumbers.ChaptersAreListedPagesButIndex | _section_numbers.py:11-18 | with no entry listed twice, the chapters are exactly the listed `.html` paths other than `docs/index.html`, each of them once |
| SectionNumbers.NumberedDocs | _section_numbers.py:24-46 | the chapter loop neither creates nor deletes a file |
| SectionNumbers.NumberedDocsOutside | _section_numbers.py:24-46 | a file that is not in the chapter list keeps its content through the loop |
| SectionNumbers.NumberedDocsAt | _section_numbers.py:21-46 | with no chapter repeated, the chapter at sorted position `k` ends up as its old content transformed with counter `k` |
| SectionNumbers.FixIndex | _section_numbers.py:49-59 | the index page gets the redirect replacement; every other file keeps its content, and no file is created or deleted |
| SectionNumbers.Script | _section_numbers.py:8-59 | the run fails exactly when `docs/index.html` was not listed; a successful run neither creates nor deletes a file |
| SectionNumbers.RenumberHeaders | _section_numbers.py:31-32 | the header replacement, given by its definition. It is specified by `SectionNumbers.RenumberLeadingOne`, `SectionNumbers.RenumberSingleHeader` and `SectionNumbers.SecondChapterHeadersUnchanged` |
| SectionNumbers.LabelMenu | _section_numbers.py:38-42 | the two menu replacements, first then second, given by its definition. It is specified by `SectionNumbers.FirstMenuLabel`, `SectionNumbers.SecondMenuLabel` and `SectionNumbers.BothMenuLabels` |
| SectionNumbers.TransformChapter | _section_numbers.py:31-42 | one chapter's rewrite, given by its definition: `LabelMenu` applied to what `RenumberHeaders` leaves. It is specified by `SectionNumbers.UntouchedChapter`, `SectionNumbers.FirstMenuEntryPage` and `SectionNumbers.SecondMenuEntryPage`, and by the lemmas on its two steps |
| SectionNumbers.FixRedirect | _section_numbers.py:54-55 | the index page's replacement, given by its definition. It is specified by `SectionNumbers.RedirectLink` |
| SectionNumbers.ChapterList | _section_numbers.py:17-18 | `remove` then `sort` on the `.html` list, given by its definition. It is specified by `SectionNumbers.ChapterListMembers` |
| SectionNumbers.ScriptEffect | _section_numbers.py:17-59 | a successful run rewrites the chapter at sorted position `k` with counter `k` and the index page with the redirect fix only, and leaves every other file as it was |
| SectionNumbers.NonHtmlUntouched | _section_numbers.py:11-14 | an entry that is not an `.html` page is never rewritten |
| SectionNumbers.UntouchedChapter | _section_numbers.py:27-46 | a chapter holding none of the three search strings is written back identical to what was read |
| SectionNumbers.RenumberLeadingOne | _section_numbers.py:31-32 | a header whose number starts with `1` gets that `1` replaced by the counter's digits, and the scan goes on in the text after the `1` |
| SectionNumbers.RenumberSingleHeader | _section_numbers.py:31-32 | when the text after such a header holds no other header, that text is kept as it was |
| SectionNumbers.FirstChapterHeader | _section_numbers.py:31-32 | in the first chapter (counter 0), section `1.1` becomes `0.1` |
| SectionNumbers.SecondChapterHeadersUnchanged | _section_numbers.py:31-32 | in the second chapter (counter 1), the headers are written back unchanged, so `1.2` stays `1.2` |
| SectionNumbers.RerunRenumbersAgain | _section_numbers.py:31-35 | the script is not idempotent: with counter 10, a header renumbered once is renumbered again by a second run (`1.x` becomes `10.x`, then `100.x`) |
| SectionNumbers.MenusHoldNoHeader | _section_numbers.py:31-42 | neither menu entry contains the header search string |
| SectionNumbers.FirstMenuLabel | _section_numbers.py:38-39 | in the text the header step leaves, whatever headers it holds, the first menu entry gets the label `1 ` and the text before and after it is kept, when the entry occurs once and the label step forms no second menu entry |
| SectionNumbers.FirstMenuEntryPage | _section_numbers.py:38-39 | a page consisting of exactly the first menu entry becomes the labelled entry, whatever the counter |
| SectionNumbers.SecondMenuLabel | _section_numbers.py:41-42 | in the text the header step leaves, the second menu entry gets the label `2 ` and the text before and after it is kept, when the entry occurs once and the text holds no first menu entry |
| SectionNumbers.BothMenuLabels | _section_numbers.py:38-42 | in a sidebar that lists both chapters, the first entry before the second, each entry gets its label and the text before, between and after them is kept, when each entry occurs once |
| SectionNumbers.SecondMenuEntryPage | _section_numbers.py:41-42 | a page consisting of exactly the second menu entry becomes the labelled entry, whatever the counter |
| SectionNumbers.RedirectLink | _section_numbers.py:54-55 | on the index page, the first link to `02-statistics1.html` is redirected to `00-index.html`, the text before it is kept, and the scan goes on after it; when no further link follows, the text after it is kept too |
| SectionNumbers.Site.constructor | _section_numbers.py:8 | the script starts with the given directory, an empty `html_files` and a zero counter |
| SectionNumbers.Site.CollectHtml | _section_numbers.py:11-14 | the loop leaves `html_files` equal to the listed entries whose basename ends in `.html`, in listing order |
| SectionNumbers.Site.KeepChapters | _section_numbers.py:17-18 | when the index page is absent, it fails and leaves the list as it was; otherwise the list becomes `ChapterList` of the old list, the sorted rest |
| SectionNumbers.Site.SelectChapters | _section_numbers.py:11-18 | the two list blocks together: they fail exactly when `Chapters` of the listing is absent, and otherwise leave `html_files` equal to it |
| SectionNumbers.Site.NumberChapters | _section_numbers.py:21-46 | after the loop, the counter equals the number of chapters and the directory is the one `NumberedDocs` describes |
| SectionNumbers.Site.FixIndexRedirect | _section_numbers.py:49-59 | the directory becomes `FixIndex` of what it was |
| SectionNumbers.Site.RewritePages | _section_numbers.py:21-59 | the chapter loop followed by the index fix: the counter ends at the number of chapters and the directory becomes `FixIndex` of `NumberedDocs` of the old directory |
| SectionNumbers.Site.Run | _section_numbers.py:8-59 | the whole run agrees with `Script`. When the index page was not listed, it fails before any file is written. Otherwise, on success, `html_files` is the chapter list and `cnt` is its length |

## Left out

- File I/O (`glob.glob`, `open`, `read`, `write`) is not modelled as effects. The directory is a map from path to content, and the glob result is a parameter.
- Text decoding is not modelled. `open()` in text mode decodes with the locale's encoding and turns `\r\n` and `\r` into `\n` on reading, and writing turns `\n` into the platform's line separator. The map holds the decoded, newline-normalised text. So the model does not capture that a chapter with `\r\n` line ends and no search string is written back with different bytes. Nor does it capture that a page that is not valid in the locale's encoding raises in the middle of the loop, after the earlier chapters were written.
- The order in which `glob.glob` returns entries is left open: every listing is allowed. `SectionNumbers.ChaptersIgnoreListingOrder` shows that the order does not matter.
- I/O failures are not modelled: a listed page that cannot be read, permission errors, a full disk, and the lack of rollback after a partial write. `Script` and `Site.Run` require every listed `.html` path to be readable.
- The unused `pandas` import is not modelled.
- The index page's nested `with` blocks are modelled as a read followed by a write. They only manage file handles.
- `Paths.Basename` models POSIX paths only. It splits at `/` and ignores drive letters and `\`.
- SectionNumbers.NumberedDocsAt: assumes no chapter is listed twice. A directory listing never repeats an entry. With a repeat, the fold in `NumberedDocs` still models the code: the file is rewritten once per listing.
- SectionNumbers.ScriptEffect: assumes the listing has no repeated entry, for the same reason.
- SectionNumbers.ChaptersAreListedPagesButIndex: assumes the listing has no repeated entry, for the same reason.
