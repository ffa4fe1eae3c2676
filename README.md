# Table of contents of a blog post

This project models the table-of-contents sidebar of a blog's post page,
`src/components/Posts/Toc.jsx`, in two parts.

- **Heading extractor** (the default export). The post's markdown is split
  into lines. The lines that contain `"# "` and begin with `#` are kept. Each
  kept line becomes an entry `{title, count}`:
  - `title` is the second piece of `split("# ")`, without backticks and
    trimmed;
  - `count` is the number of `#` characters in the whole line, minus one,
    times five.

  It is modelled as functions (`TocHeadings.Extract`, `TocHeadings.ItemOf`)
  over a model of the JavaScript string operations it uses
  (`JsStrings.Split`, `JsStrings.Trim`, `JsStrings.RemoveChar`,
  `JsStrings.Includes`).
- **Active-heading tracker** (the intersection callback of
  `useIntersectionObserver`). It keeps the latest visibility flag per heading
  id. After each batch of observer entries it marks one visible heading as
  active: the single visible one, or the visible one that comes first in the
  page's heading order. It is modelled as the class `ActiveHeading.Tracker`,
  with a map field, the `activeId` field and the method `OnBatch`. The page's
  heading order is a constructor input.

The module `Wrappers` holds the `Option` type shared by the others.

Three behaviours of the code are easy to misread, and the model keeps each
of them.
- The indent counts every `#` of the line (`match(/#/g)`), not only the
  leading run. So `"## C# tips"` gets indent 10 and title `"C"`
  (`TocHeadings.HashInsideTitle`).
- A kept line cannot fault. It contains `"# "`, so `split("# ")` always
  has a piece at index 1, though that piece may be empty.
  `TocHeadings.ItemOf` needs no precondition beyond the two filters.
- Only the first character of a line is tested for `#`.

## Model

| member | source | states |
|---|---|---|
| JsStrings.IndexFrom | src/components/Posts/Toc.jsx:84 | the search finds the first occurrence of the separator at or after the start position, or reports that there is none |
| JsStrings.IndexOfIsFirst | src/components/Posts/Toc.jsx:84 | an occurrence with no occurrence before it is the one the search returns |
| JsStrings.Includes | src/components/Posts/Toc.jsx:71 | `includes`: the separator occurs at some position; `Split` yields two or more pieces exactly when it holds, and `MarkerNeedsBoth` says when it cannot |
| JsStrings.Split | src/components/Posts/Toc.jsx:71 | `split` yields at least one piece, and at least two exactly when the string contains the separator |
| JsStrings.SplitJoin | src/components/Posts/Toc.jsx:71 | joining the pieces of a split with the separator gives back the original string |
| JsStrings.SplitPiecesAreFree | src/components/Posts/Toc.jsx:84 | no piece of a split contains the separator |
| JsStrings.PrefixBeforeFirstIsFree | src/components/Posts/Toc.jsx:84 | the text before the first occurrence of the separator does not contain it |
| JsStrings.SecondPieceBetweenSeparators | src/components/Posts/Toc.jsx:84 | the string is piece 0, the separator, piece 1, then either nothing or the separator and the rest, so piece 1 is the text between the first two separators |
| JsStrings.JoinFirstTwo | src/components/Posts/Toc.jsx:71 | a join of two or more pieces starts with the first piece, the separator and the second piece |
| JsStrings.SplitConcat | src/components/Posts/Toc.jsx:71 | splitting on a one-character separator cuts `a + sep + b` into the lines of `a` followed by the lines of `b` |
| JsStrings.LeadingSpace | src/components/Posts/Toc.jsx:84 | counts the whitespace at the start: every character before the count is whitespace, and the one at the count is not (or the string ends) |
| JsStrings.TrailingSpace | src/components/Posts/Toc.jsx:84 | counts the whitespace at the end: every character after the cut is whitespace, and the one before it is not (or the string starts) |
| JsStrings.Trim | src/components/Posts/Toc.jsx:84 | `trim` leaves no whitespace at either end and adds no character |
| JsStrings.TrimDecomposes | src/components/Posts/Toc.jsx:84 | the input is whitespace, then the trimmed result, then whitespace |
| JsStrings.TrimStartSkips | src/components/Posts/Toc.jsx:84 | `trimStart` drops exactly a leading run of whitespace |
| JsStrings.TrimEndSkips | src/components/Posts/Toc.jsx:84 | `trimEnd` drops exactly a trailing run of whitespace |
| JsStrings.TrimUnique | src/components/Posts/Toc.jsx:84 | any split of a string into whitespace, a string with no whitespace at either end, and whitespace, has that middle string as its `trim` |
| JsStrings.RemoveChar | src/components/Posts/Toc.jsx:84 | `replace(/`/g, "")` leaves no backtick, removes every backtick and nothing else, and leaves a string without backticks unchanged |
| JsStrings.RemoveCharAppend | src/components/Posts/Toc.jsx:84 | backtick removal works piece by piece, so what is left keeps its order |
| TocHeadings.Filter | src/components/Posts/Toc.jsx:71-74 | `filter` keeps exactly the elements that pass the test, and never more than it was given |
| TocHeadings.FilterAppend | src/components/Posts/Toc.jsx:71-74 | filtering a concatenation filters each part, keeping the order |
| TocHeadings.FilterTwice | src/components/Posts/Toc.jsx:71-74 | two filters in a row keep what one filter on the conjunction of the tests keeps |
| TocHeadings.HasMarker | src/components/Posts/Toc.jsx:71 | the first filter test, `includes("# ")`; `HeadingLinesAreExactlyTheHeadingLines` shows the filters keep exactly the lines passing it and `StartsWithHash` |
| TocHeadings.StartsWithHash | src/components/Posts/Toc.jsx:74 | the second filter test, `str[0] === "#"`, false on an empty line; characterised together with `HasMarker` by `HeadingLinesAreExactlyTheHeadingLines` |
| TocHeadings.HashCount | src/components/Posts/Toc.jsx:77 | `match(/#/g)?.length`, the number of `#` anywhere in the line; `HashRun` and `HashCountAppend` give its value on a run of `#` and over concatenation |
| TocHeadings.HeadingLineHasHash | src/components/Posts/Toc.jsx:77-78 | a kept line has at least one `#`, so the `if (count)` guard always holds |
| TocHeadings.ItemOf | src/components/Posts/Toc.jsx:75-85 | building the entry of a kept line never fails; the count is a non-negative multiple of 5, zero exactly when the line has a single `#`; the title has no backtick and no whitespace at either end |
| TocHeadings.TitleBetweenMarkers | src/components/Posts/Toc.jsx:71-84 | for a line `before + "# " + between + after`, with no `"# "` in `before` or in `between` and `after` empty or starting with `"# "`: the line is kept exactly when `before` is empty or starts with `#`, and its title is `between` without backticks, trimmed |
| TocHeadings.SecondPieceIs | src/components/Posts/Toc.jsx:84 | piece 1 of `split("# ")` is the text between the first `"# "` and the next one, or the end of the line |
| TocHeadings.FirstMarkerAt | src/components/Posts/Toc.jsx:84 | when the text before a `"# "` has none, that `"# "` is the first of the line, because an occurrence cannot straddle the joint |
| TocHeadings.NoMarker | src/components/Posts/Toc.jsx:84 | a line without `"# "` splits into itself alone |
| TocHeadings.DeeperHeadingIndentsMore | src/components/Posts/Toc.jsx:77-81 | of two kept lines, the one with more `#` characters is indented further, and equal counts give equal indents |
| TocHeadings.HeadingLines | src/components/Posts/Toc.jsx:71-74 | every line the two filters keep contains `"# "` and begins with `#` |
| TocHeadings.Extract | src/components/Posts/Toc.jsx:71-85 | one entry per kept line, each with a non-negative indent in steps of five and a title without backticks or surrounding whitespace |
| TocHeadings.HeadingLinesAreExactlyTheHeadingLines | src/components/Posts/Toc.jsx:71-74 | the two filters keep exactly the lines of the post that contain `"# "` and begin with `#`, and nothing else |
| TocHeadings.ExtractConcat | src/components/Posts/Toc.jsx:71-85 | entries come in document order: the table of contents of `a + "\n" + b` is that of `a` followed by that of `b` |
| TocHeadings.HeadingLinesConcat | src/components/Posts/Toc.jsx:71-74 | the kept lines of `a + "\n" + b` are those of `a` followed by those of `b` |
| TocHeadings.MarkerNeedsBoth | src/components/Posts/Toc.jsx:71 | a string without `#` or without a space contains no `"# "` |
| TocHeadings.ExtractOneLine | src/components/Posts/Toc.jsx:71-85 | a one-line post has the entry of its line if the line is kept, and no entry otherwise |
| TocHeadings.ThreeDepths | src/components/Posts/Toc.jsx:71-85 | for any plain titles, `"# t1\n## t2\ntext\n### t3"` gives the entries `t1`, `t2` and `t3` with counts 0, 5 and 10, and drops the text line |
| TocHeadings.PlainLine | src/components/Posts/Toc.jsx:71-74 | a line that is not kept gives no entry |
| TocHeadings.DepthEntries | src/components/Posts/Toc.jsx:75-85 | the lines `"# t"`, `"## t"` and `"### t"` give counts 0, 5 and 10 |
| TocHeadings.ExtractFourLines | src/components/Posts/Toc.jsx:71-85 | four lines give their entries in order |
| TocHeadings.OneHeadingLine | src/components/Posts/Toc.jsx:75-85 | a run of `#`, `"# "` and a plain title give one entry with that title, indented five per extra `#` |
| TocHeadings.HeadingEntry | src/components/Posts/Toc.jsx:75-85 | a run of `#`, `"# "` and text with no `#` or line break give one entry whose title is the text without backticks |
| TocHeadings.HeadingItem | src/components/Posts/Toc.jsx:75-85 | the entry of such a line has that title and an indent of five per `#` before the marker |
| TocHeadings.HeadingLineTitle | src/components/Posts/Toc.jsx:84 | such a line is kept, and its title is the text after the marker, without backticks and trimmed |
| TocHeadings.HeadingItemCount | src/components/Posts/Toc.jsx:77-81 | the indent of such a line is five per `#` before the marker |
| TocHeadings.HeadingHashCount | src/components/Posts/Toc.jsx:77 | such a line has one `#` more than the run before the marker |
| TocHeadings.HashRun | src/components/Posts/Toc.jsx:77 | a run of `#` characters holds as many `#` as its length |
| TocHeadings.HashCountAppend | src/components/Posts/Toc.jsx:77 | the `#` count of a concatenation is the sum of the counts |
| TocHeadings.OneLineEntry | src/components/Posts/Toc.jsx:75-85 | a one-line post of the form in `TitleBetweenMarkers`, whose title needs no trimming, has exactly that one entry |
| TocHeadings.QuotedCode | src/components/Posts/Toc.jsx:84 | backticks vanish from titles: the line ``"## `code` heading"`` becomes the entry `"code heading"` at indent 5, for any such code and text |
| TocHeadings.RemoveQuoted | src/components/Posts/Toc.jsx:84 | removing the quote characters around a quoted word leaves the word and the rest |
| TocHeadings.HashInsideTitle | src/components/Posts/Toc.jsx:77-84 | every `#` of the line counts toward the indent, and a `"# "` inside the heading text ends the title |
| ActiveHeading.PositionOf | src/components/Posts/Toc.jsx:37 | `findIndex` gives the position of the first heading with that id, or -1 exactly when there is none |
| ActiveHeading.Merge | src/components/Posts/Toc.jsx:20-23 | the `reduce` that stores each entry under its id; `MergeLookup` states its result id by id, `MergeAppend` and `MergeOrderIrrelevant` how batches combine |
| ActiveHeading.MergeLookup | src/components/Posts/Toc.jsx:20-23 | after a batch, an id is recorded exactly when it was recorded before or the batch reports it; its flag is that of the batch's last entry for it, or the old flag when the batch does not report it |
| ActiveHeading.LastForSome | src/components/Posts/Toc.jsx:20-23 | a batch has a last entry for an id exactly when it has some entry for it |
| ActiveHeading.MergeAppend | src/components/Posts/Toc.jsx:20-23 | two batches in a row record what one batch holding both would |
| ActiveHeading.LastForDistinct | src/components/Posts/Toc.jsx:20-23 | with one entry per id, the last entry for an id is its only entry |
| ActiveHeading.MergeOrderIrrelevant | src/components/Posts/Toc.jsx:20-23 | with one entry per id, the order of the entries within a batch does not change the recorded map |
| ActiveHeading.Visible | src/components/Posts/Toc.jsx:26-34 | the ids whose latest entry is on screen; `CollectVisible` lists exactly these, each once |
| ActiveHeading.EarliestUnique | src/components/Posts/Toc.jsx:37-45 | two earliest visible ids are the same unless both are missing from the page |
| ActiveHeading.MissingIdWins | src/components/Posts/Toc.jsx:37-45 | a visible id missing from the page has position -1, so the winner is then also missing from the page |
| ActiveHeading.EarliestIsTopmost | src/components/Posts/Toc.jsx:37-45 | when every visible id is on the page, the winner is on the page and no visible heading comes before it |
| ActiveHeading.CollectVisible | src/components/Posts/Toc.jsx:26-34 | the scan lists exactly the recorded ids whose entry is on screen, each once |
| ActiveHeading.FirstEarliest | src/components/Posts/Toc.jsx:42-45 | the head of the stable sort by position: a visible id with the least position, before which every visible id has a greater position |
| ActiveHeading.Tracker.constructor | src/components/Posts/Toc.jsx:9-15 | the tracker starts with no records and the active id `""` |
| ActiveHeading.Tracker.Reset | src/components/Posts/Toc.jsx:13-15 | a content change clears the records and takes the new heading order; the active id is kept |
| ActiveHeading.Tracker.OnBatch | src/components/Posts/Toc.jsx:18-47 | the records become the old records merged with the batch; with no visible id the active id is unchanged; with one it becomes that id; with several it becomes the earliest visible id in page order; the active id is always `""` or an id some batch reported |

## Left out

- The `IntersectionObserver` construction, its `rootMargin` option, the `observe` calls and the commented-out `disconnect` (src/components/Posts/Toc.jsx:50-62) are browser plumbing. Batches of entries are method arguments instead.
- The heading query `document.querySelectorAll("h1, h2, h3")` and its `"pageTitle"` filter (src/components/Posts/Toc.jsx:56) are a DOM query. The heading order is a constructor or `Reset` argument.
- Both calls of the hook (src/components/Posts/Toc.jsx:87 and 98) share one map, because `useRef` is assigned and never called (line 11). The model has one tracker that owns its map. That sharing and the old observer that is never disconnected are how ids missing from the page can reach the records; `ActiveHeading.MissingIdWins` states what happens then.
- The effect re-runs on every render for the call at line 87; React's scheduling of effects and state updates is not modelled.
- `Object.keys` enumeration order (line 27) is not modelled. `CollectVisible` lists the visible ids in an unspecified order. It matters only when two visible ids tie on position, which happens only when both are missing from the page.
- ActiveHeading.Tracker.OnBatch: the sort at line 44 is modelled by its first element only, which is all the code reads.
- ActiveHeading.Tracker: the map keeps each entry's `isIntersecting` flag rather than the whole observer entry, since the code reads nothing else from it.
- A JavaScript object used as a map treats keys such as `"__proto__"` specially. The model uses a plain finite map.
- JavaScript strings are UTF-16 code units; the model works on characters. `trim` uses the ECMAScript whitespace and line-terminator set.
- The click handler (src/components/Posts/Toc.jsx:89-96) and the JSX and styling (lines 100-130) are browser side effects and presentation.
- `src/components/CustomMarkdownTag/tags/code.tsx` is a wrapper around an external syntax highlighter and is not part of this model.
