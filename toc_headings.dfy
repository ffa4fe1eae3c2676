/** The heading extractor of the table-of-contents sidebar
    (src/components/Posts/Toc.jsx, the default export): the post's markdown is
    split into lines, the lines that contain "# " and begin with '#' are kept,
    and each becomes an item with its title and its indent. */
module TocHeadings {
  import opened Wrappers
  import opened JsStrings

  /** One table-of-contents entry: the heading text and its indent in units
      (the sidebar draws `count * 3` pixels of margin). */
  datatype TocItem = TocItem(title: string, count: int)

  /** What the extractor looks for in a line and splits the line on. */
  const Marker: string := "# "
  /** Indent units per extra '#' in a heading line. */
  const IndentStep: int := 5

  /** First filter: `t.includes("# ")`. */
  predicate HasMarker(line: string): (b: bool)
    ensures b ==> |line| >= 2
  {
    Includes(line, Marker)
  }

  /** Second filter: `str[0] === "#"` (false on the empty line, where `str[0]`
      is undefined). */
  predicate StartsWithHash(line: string): (b: bool)
    ensures b ==> HashCount(line) >= 1
  {
    |line| > 0 && line[0] == '#'
  }

  predicate IsHeadingLine(line: string)
  {
    HasMarker(line) && StartsWithHash(line)
  }

  /** The number of matches of the regular expression /#/g: every '#' in the
      line, not only the leading run. */
  function HashCount(line: string): (r: nat)
    ensures r <= |line|
    ensures r == 0 <==> '#' !in line
  {
    multiset(line)['#']
  }

  /** `Array.prototype.filter` over the lines of a post. */
  function Filter(s: seq<string>, p: string -> bool): (r: seq<string>)
    ensures |r| <= |s|
    ensures forall x :: x in r <==> x in s && p(x)
  {
    if s == [] then []
    else (if p(s[0]) then [s[0]] else []) + Filter(s[1..], p)
  }

  /** Filtering distributes over concatenation: the kept elements stay in
      their original order. */
  lemma {:induction false} FilterAppend(a: seq<string>, b: seq<string>, p: string -> bool)
    ensures Filter(a + b, p) == Filter(a, p) + Filter(b, p)
    decreases |a|
  {
    if a != [] {
      assert (a + b)[0] == a[0];
      assert (a + b)[1..] == a[1..] + b;
      FilterAppend(a[1..], b, p);
    } else {
      assert a + b == b;
    }
  }

  /** Two filters in a row keep what the conjunction of their tests keeps. */
  lemma {:induction false} FilterTwice(s: seq<string>, p: string -> bool, q: string -> bool, both: string -> bool)
    requires forall x :: both(x) == (p(x) && q(x))
    ensures Filter(Filter(s, p), q) == Filter(s, both)
    decreases |s|
  {
    if s != [] {
      FilterTwice(s[1..], p, q, both);
      var head := if p(s[0]) then [s[0]] else [];
      FilterAppend(head, Filter(s[1..], p), q);
    }
  }

  /** A kept line has at least one '#', so the source's `if (count)` guard
      always holds and the indent is never left undefined. */
  lemma HeadingLineHasHash(line: string)
    requires IsHeadingLine(line)
    ensures HashCount(line) >= 1
  {
    assert line[0] in multiset(line);
  }

  lemma IndentOf(extra: nat)
    ensures extra * IndentStep >= 0 && (extra * IndentStep) % IndentStep == 0
    ensures extra * IndentStep == 0 <==> extra == 0
  {
  }

  /** A title with its backticks removed and trimmed has no backtick and no
      whitespace at either end. */
  lemma CleanTitle(piece: string)
    ensures '`' !in Trim(RemoveChar(piece, '`')) && Trimmed(Trim(RemoveChar(piece, '`')))
  {
  }

  /** The entry built for one kept line (the `map` callback). `split("# ")`
      cannot come up short: the line contains "# ", so there is a piece 1. */
  function ItemOf(line: string): (item: TocItem)
    requires IsHeadingLine(line)
    ensures item.count >= 0 && item.count % IndentStep == 0
    ensures item.count == 0 <==> HashCount(line) == 1
    ensures '`' !in item.title && Trimmed(item.title)
  {
    var pieces := Split(line, Marker);
    assert |pieces| >= 2 by {
      assert HasMarker(line);
    }
    var title := Trim(RemoveChar(pieces[1], '`'));
    CleanTitle(pieces[1]);
    var hashes := HashCount(line);
    assert hashes >= 1 by {
      HeadingLineHasHash(line);
    }
    IndentOf(hashes - 1);
    TocItem(title, (hashes - 1) * IndentStep)
  }

  /** The title is the text between the first "# " of the line and the next
      one (or the end of the line), with its backticks removed and the
      whitespace around it trimmed. */
  lemma TitleBetweenMarkers(line: string, before: string, between: string, after: string)
    requires line == before + Marker + between + after
    requires !Includes(before, Marker) && !Includes(between, Marker)
    requires after == "" || OccursAt(after, Marker, 0)
    ensures IsHeadingLine(line) <==> before == "" || before[0] == '#'
    ensures IsHeadingLine(line) ==> ItemOf(line).title == Trim(RemoveChar(between, '`'))
  {
    var rest := between + after;
    assert line == before + Marker + rest;
    assert OccursAt(line, Marker, |before|) by {
      assert line[|before|..|before| + 2] == Marker;
    }
    if before == "" {
      assert line[0] == '#';
    } else {
      assert line[0] == before[0];
    }
    SecondPieceIs(line, before, between, after);
  }

  lemma SecondPieceIs(line: string, before: string, between: string, after: string)
    requires line == before + Marker + between + after
    requires !Includes(before, Marker) && !Includes(between, Marker)
    requires after == "" || OccursAt(after, Marker, 0)
    ensures |Split(line, Marker)| >= 2 && Split(line, Marker)[1] == between
  {
    var rest := between + after;
    assert line == before + Marker + rest;
    FirstMarkerAt(line, before, rest);
    assert line[|before| + 2..] == rest;
    assert Split(line, Marker) == [line[..|before|]] + Split(rest, Marker);
    if after == "" {
      assert rest == between;
      NoMarker(between);
    } else {
      assert after == Marker + after[2..];
      assert rest == between + Marker + after[2..];
      FirstMarkerAt(rest, between, after[2..]);
      assert rest[..|between|] == between;
    }
  }

  /** Where `pre` holds no "# ", the first "# " of `pre + "# " + post` is the
      one after `pre`: an occurrence cannot straddle the joint, because the
      marker begins with '#' and not with a space. */
  lemma FirstMarkerAt(s: string, pre: string, post: string)
    requires s == pre + Marker + post && !Includes(pre, Marker)
    ensures IndexOf(s, Marker) == Some(|pre|)
  {
    forall j: nat | j < |pre|
      ensures !OccursAt(s, Marker, j)
    {
      if j + 2 <= |pre| {
        assert s[j..j + 2] == pre[j..j + 2];
        assert !OccursAt(pre, Marker, j);
      } else {
        assert s[j + 1] == '#';
      }
    }
    assert s[|pre|..|pre| + 2] == Marker;
    IndexOfIsFirst(s, Marker, |pre|, 0);
  }

  lemma NoMarker(s: string)
    requires !Includes(s, Marker)
    ensures Split(s, Marker) == [s]
  {
  }

  /** A line with more '#' characters is indented further. */
  lemma DeeperHeadingIndentsMore(a: string, b: string)
    requires IsHeadingLine(a) && IsHeadingLine(b)
    ensures HashCount(a) < HashCount(b) <==> ItemOf(a).count < ItemOf(b).count
    ensures HashCount(a) == HashCount(b) <==> ItemOf(a).count == ItemOf(b).count
  {
  }

  /** The lines kept by the two filters of the extractor. */
  function HeadingLines(post: string): (lines: seq<string>)
    ensures forall l :: l in lines ==> IsHeadingLine(l)
  {
    Filter(Filter(Split(post, "\n"), HasMarker), StartsWithHash)
  }

  /** The table of contents of a post: one entry per heading line, each
      with a clean title and a non-negative indent in steps of five. */
  function Extract(post: string): (items: seq<TocItem>)
    ensures |items| == |HeadingLines(post)|
    ensures forall item :: item in items ==>
      item.count >= 0 && item.count % IndentStep == 0 && '`' !in item.title && Trimmed(item.title)
  {
    var lines := HeadingLines(post);
    seq(|lines|, k requires 0 <= k < |lines| => ItemOf(lines[k]))
  }

  lemma ExtractAt(post: string, k: nat)
    requires k < |HeadingLines(post)|
    ensures Extract(post)[k] == ItemOf(HeadingLines(post)[k])
  {
  }

  /** The two filters keep exactly the lines that contain "# " and begin with
      '#', and nothing else. */
  lemma HeadingLinesAreExactlyTheHeadingLines(post: string)
    ensures HeadingLines(post) == Filter(Split(post, "\n"), IsHeadingLine)
    ensures forall l :: l in HeadingLines(post) <==> l in Split(post, "\n") && IsHeadingLine(l)
  {
    FilterTwice(Split(post, "\n"), HasMarker, StartsWithHash, IsHeadingLine);
  }

  /** One entry per heading line, in document order: the table of contents
      of two blocks of text joined by a line break is the table of contents
      of the first followed by that of the second. */
  lemma ExtractConcat(a: string, b: string)
    ensures Extract(a + "\n" + b) == Extract(a) + Extract(b)
  {
    HeadingLinesConcat(a, b);
    var l, la, lb := HeadingLines(a + "\n" + b), HeadingLines(a), HeadingLines(b);
    var e, ea, eb := Extract(a + "\n" + b), Extract(a), Extract(b);
    assert |e| == |ea + eb|;
    forall k | 0 <= k < |e|
      ensures e[k] == (ea + eb)[k]
    {
      ExtractAt(a + "\n" + b, k);
      if k < |la| {
        ExtractAt(a, k);
        assert l[k] == la[k];
      } else {
        ExtractAt(b, k - |la|);
        assert l[k] == lb[k - |la|];
      }
    }
  }

  lemma HeadingLinesConcat(a: string, b: string)
    ensures HeadingLines(a + "\n" + b) == HeadingLines(a) + HeadingLines(b)
  {
    SplitConcat(a, "\n", b);
    var la, lb := Split(a, "\n"), Split(b, "\n");
    FilterAppend(la, lb, HasMarker);
    FilterAppend(Filter(la, HasMarker), Filter(lb, HasMarker), StartsWithHash);
  }

  /** A string without '#' or without a space cannot contain "# ". */
  lemma MarkerNeedsBoth(s: string)
    requires '#' !in s || ' ' !in s
    ensures !Includes(s, Marker)
  {
    forall i: nat | i + 2 <= |s|
      ensures !OccursAt(s, Marker, i)
    {
      assert s[i..i + 2] == [s[i], s[i + 1]];
    }
  }

  /** A post of a single line has at most one entry. */
  lemma ExtractOneLine(line: string)
    requires '\n' !in line
    ensures Extract(line) == if IsHeadingLine(line) then [ItemOf(line)] else []
  {
    forall i: nat | i + 1 <= |line|
      ensures !OccursAt(line, "\n", i)
    {
      assert line[i..i + 1] == [line[i]];
    }
    assert Split(line, "\n") == [line];
    assert Filter([line], HasMarker) == if HasMarker(line) then [line] else [];
  }

  /** Heading text that the extractor passes through unchanged. */
  predicate PlainTitle(t: string)
  {
    '#' !in t && '`' !in t && '\n' !in t && Trimmed(t)
  }

  /** A worked example, for any titles: headings at
      depths one, two and three, with a plain line between them that is
      dropped. With "Title", "Sub", "text" and "Deep" the post is
      "# Title\n## Sub\ntext\n### Deep" and the counts are 0, 5 and 10. */
  lemma ThreeDepths(t1: string, t2: string, text: string, t3: string)
    requires PlainTitle(t1) && PlainTitle(t2) && PlainTitle(t3)
    requires '\n' !in text && !IsHeadingLine(text)
    ensures Extract(Marker + t1 + "\n" + ("#" + Marker + t2) + "\n" + text + "\n" + ("##" + Marker + t3))
      == [TocItem(t1, 0), TocItem(t2, 5), TocItem(t3, 10)]
  {
    var l1, l2, l4 := Marker + t1, "#" + Marker + t2, "##" + Marker + t3;
    var e1, e2, e4 := TocItem(t1, 0), TocItem(t2, 5), TocItem(t3, 10);
    ExtractFourLines(l1, l2, text, l4);
    DepthEntries(t1, t2, t3);
    PlainLine(text);
    ThreeInOrder(e1, e2, e4);
  }

  lemma ThreeInOrder(e1: TocItem, e2: TocItem, e4: TocItem)
    ensures [e1] + [e2] + [] + [e4] == [e1, e2, e4]
  {
  }

  /** A line that is not a heading line contributes no entry. */
  lemma PlainLine(text: string)
    requires '\n' !in text && !IsHeadingLine(text)
    ensures Extract(text) == []
  {
    ExtractOneLine(text);
  }

  lemma DepthEntries(t1: string, t2: string, t3: string)
    requires PlainTitle(t1) && PlainTitle(t2) && PlainTitle(t3)
    ensures Extract(Marker + t1) == [TocItem(t1, 0)]
    ensures Extract("#" + Marker + t2) == [TocItem(t2, 5)]
    ensures Extract("##" + Marker + t3) == [TocItem(t3, 10)]
  {
    assert "" + Marker + t1 == Marker + t1;
    OneHeadingLine("", t1);
    OneHeadingLine("#", t2);
    OneHeadingLine("##", t3);
  }

  /** Four lines joined by line breaks: their entries, in order. */
  lemma ExtractFourLines(l1: string, l2: string, l3: string, l4: string)
    ensures Extract(l1 + "\n" + l2 + "\n" + l3 + "\n" + l4)
      == Extract(l1) + Extract(l2) + Extract(l3) + Extract(l4)
  {
    ExtractConcat(l1, l2);
    ExtractConcat(l1 + "\n" + l2, l3);
    ExtractConcat(l1 + "\n" + l2 + "\n" + l3, l4);
  }

  /** A line of '#' characters, "# " and a plain title is one entry. */
  lemma OneHeadingLine(hashes: string, title: string)
    requires forall i :: 0 <= i < |hashes| ==> hashes[i] == '#'
    requires PlainTitle(title)
    ensures Extract(hashes + Marker + title) == [TocItem(title, |hashes| * IndentStep)]
  {
    HeadingEntry(hashes, title, title);
  }

  /** A line of '#' characters, "# " and text with no '#' and no line break
      is one entry, whose title is the text without backticks (when that
      needs no trimming). */
  lemma HeadingEntry(hashes: string, raw: string, title: string)
    requires forall i :: 0 <= i < |hashes| ==> hashes[i] == '#'
    requires '#' !in raw && '\n' !in raw
    requires title == RemoveChar(raw, '`') && Trimmed(title)
    ensures Extract(hashes + Marker + raw) == [TocItem(title, |hashes| * IndentStep)]
  {
    var line := hashes + Marker + raw;
    assert IsHeadingLine(line) && ItemOf(line) == TocItem(title, |hashes| * IndentStep) by {
      HeadingItem(hashes, raw, title);
    }
    assert Extract(line) == [ItemOf(line)] by {
      NewlineFree(hashes, raw);
      ExtractOneLine(line);
    }
  }

  lemma NewlineFree(hashes: string, raw: string)
    requires forall i :: 0 <= i < |hashes| ==> hashes[i] == '#'
    requires '\n' !in raw
    ensures '\n' !in hashes + Marker + raw
  {
    assert forall c :: c in hashes + Marker + raw ==> c in hashes || c in Marker || c in raw;
  }

  /** The entry of `hashes + "# " + raw`, for a run of '#' and text with no '#'. */
  lemma HeadingItem(hashes: string, raw: string, title: string)
    requires forall i :: 0 <= i < |hashes| ==> hashes[i] == '#'
    requires '#' !in raw
    requires title == RemoveChar(raw, '`') && Trimmed(title)
    ensures IsHeadingLine(hashes + Marker + raw)
    ensures ItemOf(hashes + Marker + raw) == TocItem(title, |hashes| * IndentStep)
  {
    HeadingLineTitle(hashes, raw);
    TrimmedIsFixed(title);
    HeadingItemCount(hashes, raw);
  }

  lemma HeadingLineTitle(hashes: string, raw: string)
    requires forall i :: 0 <= i < |hashes| ==> hashes[i] == '#'
    requires '#' !in raw
    ensures IsHeadingLine(hashes + Marker + raw)
    ensures ItemOf(hashes + Marker + raw).title == Trim(RemoveChar(raw, '`'))
  {
    var line := hashes + Marker + raw;
    MarkerNeedsBoth(hashes);
    MarkerNeedsBoth(raw);
    assert line == hashes + Marker + raw + "";
    TitleBetweenMarkers(line, hashes, raw, "");
  }

  lemma TrimmedIsFixed(title: string)
    requires Trimmed(title)
    ensures Trim(title) == title
  {
    TrimUnique("", title, "");
    assert "" + title + "" == title;
  }

  lemma HeadingItemCount(hashes: string, raw: string)
    requires forall i :: 0 <= i < |hashes| ==> hashes[i] == '#'
    requires '#' !in raw
    requires IsHeadingLine(hashes + Marker + raw)
    ensures ItemOf(hashes + Marker + raw).count == |hashes| * IndentStep
  {
    var line := hashes + Marker + raw;
    HeadingHashCount(hashes, raw);
    var n := HashCount(line);
    assert ItemOf(line).count == (n - 1) * IndentStep;
  }

  lemma HeadingHashCount(hashes: string, title: string)
    requires forall i :: 0 <= i < |hashes| ==> hashes[i] == '#'
    requires '#' !in title
    ensures HashCount(hashes + Marker + title) == |hashes| + 1
  {
    HashRun(hashes);
    assert multiset(title)['#'] == 0;
    assert multiset(Marker)['#'] == 1 by {
      assert Marker == ['#'] + [' '];
    }
    assert multiset(hashes + Marker + title) == multiset(hashes) + multiset(Marker) + multiset(title);
  }

  lemma {:induction false} HashRun(hashes: string)
    requires forall i :: 0 <= i < |hashes| ==> hashes[i] == '#'
    ensures multiset(hashes) == multiset{} [ '#' := |hashes| ]
  {
    if hashes != [] {
      assert hashes == hashes[..|hashes| - 1] + ['#'];
      HashRun(hashes[..|hashes| - 1]);
    }
  }

  /** A one-line post whose line is `before + "# " + between + after`, as in
      TitleBetweenMarkers, has one entry; `title` is its cleaned text. */
  lemma OneLineEntry(line: string, before: string, between: string, after: string, title: string)
    requires line == before + Marker + between + after
    requires !Includes(before, Marker) && !Includes(between, Marker)
    requires after == "" || OccursAt(after, Marker, 0)
    requires before == "" || before[0] == '#'
    requires '\n' !in line
    requires title == RemoveChar(between, '`') && Trimmed(title)
    ensures Extract(line) == [TocItem(title, (HashCount(line) - 1) * IndentStep)]
  {
    var item := TocItem(title, (HashCount(line) - 1) * IndentStep);
    assert IsHeadingLine(line) && ItemOf(line) == item by {
      TitleBetweenMarkers(line, before, between, after);
      TrimmedIsFixed(title);
    }
    assert Extract(line) == [ItemOf(line)] by {
      ExtractOneLine(line);
    }
  }

  /** Backticks in a heading disappear from its title: "## `code` heading"
      becomes the entry "code heading" at indent 5. */
  lemma QuotedCode(hashes: string, code: string, rest: string)
    requires forall i :: 0 <= i < |hashes| ==> hashes[i] == '#'
    requires PlainTitle(code + rest)
    ensures Extract(hashes + Marker + "`" + code + "`" + rest)
      == [TocItem(code + rest, |hashes| * IndentStep)]
  {
    var raw := "`" + code + "`" + rest;
    assert '#' !in raw && '\n' !in raw && RemoveChar(raw, '`') == code + rest by {
      QuotedCodeFacts(code, rest);
    }
    HeadingEntry(hashes, raw, code + rest);
    QuotedLine(hashes, code, rest);
  }

  lemma QuotedLine(hashes: string, code: string, rest: string)
    ensures hashes + Marker + "`" + code + "`" + rest == hashes + Marker + ("`" + code + "`" + rest)
  {
  }

  lemma QuotedCodeFacts(code: string, rest: string)
    requires PlainTitle(code + rest)
    ensures '#' !in "`" + code + "`" + rest && '\n' !in "`" + code + "`" + rest
    ensures RemoveChar("`" + code + "`" + rest, '`') == code + rest
  {
    var raw := "`" + code + "`" + rest;
    assert forall c :: c in raw ==> c == '`' || c in code + rest;
    assert '`' !in code && '`' !in rest by {
      assert forall c :: c in code ==> c in code + rest;
      assert forall c :: c in rest ==> c in code + rest;
    }
    RemoveQuoted(code, rest, '`');
  }

  /** Removing the quote characters around a quoted word. */
  lemma RemoveQuoted(word: string, rest: string, c: char)
    requires c !in word && c !in rest
    ensures RemoveChar([c] + word + [c] + rest, c) == word + rest
  {
    var open := [c] + word;
    var quoted := open + [c];
    assert RemoveChar([c], c) == [];
    assert RemoveChar(open, c) == word by {
      RemoveCharAppend([c], word, c);
    }
    assert RemoveChar(quoted, c) == word by {
      RemoveCharAppend(open, [c], c);
      assert word + [] == word;
    }
    RemoveCharAppend(quoted, rest, c);
  }

  /** Every '#' of the line counts toward the indent, and a "# " inside the
      heading text ends the title: "## C# tips" becomes the entry "C" at
      indent 10, where the leading run alone would give "C# tips" at 5. */
  lemma HashInsideTitle(hashes: string, title: string, rest: string)
    requires forall i :: 0 <= i < |hashes| ==> hashes[i] == '#'
    requires PlainTitle(title) && '#' !in rest && '\n' !in rest
    ensures Extract(hashes + Marker + title + Marker + rest)
      == [TocItem(title, (|hashes| + 1) * IndentStep)]
  {
    var line := hashes + Marker + title + (Marker + rest);
    assert hashes + Marker + title + Marker + rest == line;
    HashInsideTitleFacts(hashes, title, rest);
    OneLineEntry(line, hashes, title, Marker + rest, title);
  }

  lemma HashInsideTitleFacts(hashes: string, title: string, rest: string)
    requires forall i :: 0 <= i < |hashes| ==> hashes[i] == '#'
    requires PlainTitle(title) && '#' !in rest && '\n' !in rest
    ensures '\n' !in hashes + Marker + title + (Marker + rest)
    ensures OccursAt(Marker + rest, Marker, 0)
    ensures !Includes(hashes, Marker) && !Includes(title, Marker)
    ensures RemoveChar(title, '`') == title
    ensures HashCount(hashes + Marker + title + (Marker + rest)) == |hashes| + 2
  {
    NewlineFree(hashes, title);
    NewlineFree("", rest);
    assert "" + Marker + rest == Marker + rest;
    assert '\n' !in hashes + Marker + title + (Marker + rest);
    assert (Marker + rest)[..2] == Marker;
    MarkerNeedsBoth(hashes);
    MarkerNeedsBoth(title);
    HashInsideCount(hashes, title, rest);
  }

  lemma HashInsideCount(hashes: string, title: string, rest: string)
    requires forall i :: 0 <= i < |hashes| ==> hashes[i] == '#'
    requires '#' !in title && '#' !in rest
    ensures HashCount(hashes + Marker + title + (Marker + rest)) == |hashes| + 2
  {
    HeadingHashCount(hashes, title);
    HashCountAppend(hashes + Marker + title, Marker + rest);
    assert "" + Marker + rest == Marker + rest;
    HeadingHashCount("", rest);
  }

  lemma HashCountAppend(a: string, b: string)
    ensures HashCount(a + b) == HashCount(a) + HashCount(b)
  {
    assert multiset(a + b) == multiset(a) + multiset(b);
  }
}
