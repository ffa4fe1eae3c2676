/** The JavaScript string operations that the table-of-contents code relies on:
    `String.prototype.includes`, `String.prototype.split` with a non-empty
    string separator, `String.prototype.trim`, and `replace` with a global
    one-character pattern and an empty replacement. Strings are sequences of
    characters; JavaScript's UTF-16 code units are not modelled. */
module JsStrings {
  import opened Wrappers

  /** `sep` occurs in `s` starting at position `i`. */
  predicate OccursAt(s: string, sep: string, i: nat)
  {
    i + |sep| <= |s| && s[i..i + |sep|] == sep
  }

  /** `s.includes(sep)` */
  predicate Includes(s: string, sep: string): (b: bool)
    ensures b ==> |sep| <= |s|
    ensures sep == [] ==> b
  {
    assert sep == [] ==> OccursAt(s, sep, 0);
    exists i: nat | i <= |s| :: OccursAt(s, sep, i)
  }

  /** The first position at or after `from` where `sep` occurs. */
  function IndexFrom(s: string, sep: string, from: nat): (r: Option<nat>)
    requires from <= |s|
    ensures r.Some? ==> from <= r.value && OccursAt(s, sep, r.value)
    ensures r.Some? ==> forall j: nat :: from <= j < r.value ==> !OccursAt(s, sep, j)
    ensures r.None? ==> forall j: nat :: from <= j ==> !OccursAt(s, sep, j)
    decreases |s| - from
  {
    if OccursAt(s, sep, from) then Some(from)
    else if from == |s| then None
    else IndexFrom(s, sep, from + 1)
  }

  /** `s.indexOf(sep)`, with `None` for -1. */
  function IndexOf(s: string, sep: string): Option<nat>
  {
    IndexFrom(s, sep, 0)
  }

  /** The first occurrence is the one with no occurrence before it. */
  lemma {:induction false} IndexOfIsFirst(s: string, sep: string, i: nat, from: nat)
    requires from <= i && OccursAt(s, sep, i)
    requires forall j: nat :: from <= j < i ==> !OccursAt(s, sep, j)
    ensures IndexFrom(s, sep, from) == Some(i)
    decreases i - from
  {
    if from < i {
      IndexOfIsFirst(s, sep, i, from + 1);
    }
  }

  /** `s.split(sep)` for a non-empty separator: the pieces between the
      non-overlapping occurrences of `sep`, scanning from the left. */
  function Split(s: string, sep: string): (pieces: seq<string>)
    requires |sep| > 0
    ensures |pieces| >= 1
    ensures |pieces| >= 2 <==> Includes(s, sep)
    decreases |s|
  {
    match IndexOf(s, sep)
    case None => [s]
    case Some(i) => [s[..i]] + Split(s[i + |sep|..], sep)
  }

  /** `pieces.join(sep)` */
  function Join(pieces: seq<string>, sep: string): string
    requires |pieces| >= 1
  {
    if |pieces| == 1 then pieces[0] else pieces[0] + sep + Join(pieces[1..], sep)
  }

  /** Joining the pieces of a split gives back the string. */
  lemma {:induction false} SplitJoin(s: string, sep: string)
    requires |sep| > 0
    ensures Join(Split(s, sep), sep) == s
    decreases |s|
  {
    match IndexOf(s, sep)
    case None =>
    case Some(i) =>
      var rest := s[i + |sep|..];
      SplitJoin(rest, sep);
      var p := Split(s, sep);
      assert p == [s[..i]] + Split(rest, sep);
      assert p[1..] == Split(rest, sep);
      assert Join(p, sep) == s[..i] + sep + rest;
      assert s == s[..i] + s[i..i + |sep|] + rest;
  }

  /** No piece of a split contains the separator. */
  lemma {:induction false} SplitPiecesAreFree(s: string, sep: string)
    requires |sep| > 0
    ensures forall k :: 0 <= k < |Split(s, sep)| ==> !Includes(Split(s, sep)[k], sep)
    decreases |s|
  {
    match IndexOf(s, sep)
    case None =>
    case Some(i) =>
      var rest := s[i + |sep|..];
      var tail := Split(rest, sep);
      SplitPiecesAreFree(rest, sep);
      PrefixBeforeFirstIsFree(s, sep, i);
      var p := Split(s, sep);
      assert p == [s[..i]] + tail;
      forall k | 0 <= k < |p|
        ensures !Includes(p[k], sep)
      {
        if k > 0 {
          assert p[k] == tail[k - 1];
        }
      }
  }

  lemma PrefixBeforeFirstIsFree(s: string, sep: string, i: nat)
    requires |sep| > 0 && i <= |s|
    requires forall j: nat :: j < i ==> !OccursAt(s, sep, j)
    ensures !Includes(s[..i], sep)
  {
    forall j: nat | OccursAt(s[..i], sep, j)
      ensures false
    {
      assert s[..i][j..j + |sep|] == s[j..j + |sep|];
      assert OccursAt(s, sep, j);
    }
  }

  /** When `s` contains `sep`, piece 1 of the split is the text between the
      first occurrence of `sep` and the next one (or the end of `s`). */
  lemma SecondPieceBetweenSeparators(s: string, sep: string)
    requires |sep| > 0 && Includes(s, sep)
    ensures var p := Split(s, sep);
      && !Includes(p[0], sep) && !Includes(p[1], sep)
      && s == p[0] + sep + p[1] + (if |p| == 2 then "" else sep + Join(p[2..], sep))
  {
    SplitPiecesAreFree(s, sep);
    SplitJoin(s, sep);
    JoinFirstTwo(Split(s, sep), sep);
  }

  lemma JoinFirstTwo(p: seq<string>, sep: string)
    requires |p| >= 2
    ensures Join(p, sep) == p[0] + sep + p[1] + (if |p| == 2 then "" else sep + Join(p[2..], sep))
  {
    var q := p[1..];
    var tail := if |p| == 2 then "" else sep + Join(p[2..], sep);
    if |p| == 2 {
      assert Join(q, sep) == p[1] + tail by {
        assert p[1] + "" == p[1];
      }
    } else {
      assert Join(q, sep) == p[1] + tail by {
        assert q[1..] == p[2..];
      }
    }
    Assoc(p[0] + sep, p[1], tail);
  }

  /** For a one-character separator, splitting `a + sep + b` splits `a` and
      `b` separately: no occurrence can straddle the joint. */
  lemma {:induction false} SplitConcat(a: string, sep: string, b: string)
    requires |sep| == 1
    ensures Split(a + sep + b, sep) == Split(a, sep) + Split(b, sep)
    decreases |a|
  {
    var s := a + sep + b;
    forall j: nat | j < |a| && OccursAt(s, sep, j)
      ensures OccursAt(a, sep, j)
    {
      assert s[j..j + 1] == a[j..j + 1];
    }
    match IndexOf(a, sep)
    case None =>
      assert s[..|a|] == a;
      assert s[|a|..|a| + 1] == sep;
      IndexOfIsFirst(s, sep, |a|, 0);
      assert s[|a| + 1..] == b;
      assert Split(s, sep) == [a] + Split(b, sep);
    case Some(i) =>
      assert s[i..i + 1] == a[i..i + 1];
      IndexOfIsFirst(s, sep, i, 0);
      assert s[..i] == a[..i];
      assert s[i + 1..] == a[i + 1..] + sep + b;
      var tail := Split(a[i + 1..], sep);
      SplitConcat(a[i + 1..], sep, b);
      assert Split(s, sep) == [a[..i]] + (tail + Split(b, sep));
      assert Split(a, sep) == [a[..i]] + tail;
      Assoc([a[..i]], tail, Split(b, sep));
  }

  /** Concatenation is associative (a step the solver needs named). */
  lemma Assoc<T>(x: seq<T>, y: seq<T>, z: seq<T>)
    ensures x + (y + z) == x + y + z
  {
  }

  /** The characters `trim` removes: ECMAScript WhiteSpace (tab, vertical
      tab, form feed, space, no-break space, byte order mark and the Unicode
      space separators) and LineTerminator (line feed, carriage return, line
      and paragraph separators). */
  predicate IsJsWhitespace(c: char)
  {
    || c == '\t' || c == '\U{B}' || c == '\U{C}' || c == ' ' || c == '\U{A0}' || c == '\U{FEFF}'
    || c == '\U{1680}' || ('\U{2000}' <= c <= '\U{200A}') || c == '\U{202F}' || c == '\U{205F}' || c == '\U{3000}'
    || c == '\n' || c == '\r' || c == '\U{2028}' || c == '\U{2029}'
  }

  predicate AllWhitespace(s: string)
  {
    forall i :: 0 <= i < |s| ==> IsJsWhitespace(s[i])
  }

  /** Neither end of `s` is whitespace. */
  predicate Trimmed(s: string)
  {
    s == [] || (!IsJsWhitespace(s[0]) && !IsJsWhitespace(s[|s| - 1]))
  }

  /** The number of whitespace characters at the start of `s`. */
  function LeadingSpace(s: string): (n: nat)
    ensures n <= |s|
    ensures forall i :: 0 <= i < n ==> IsJsWhitespace(s[i])
    ensures n == |s| || !IsJsWhitespace(s[n])
  {
    if |s| > 0 && IsJsWhitespace(s[0]) then
      var n := 1 + LeadingSpace(s[1..]);
      assert forall i :: 1 <= i < n ==> s[i] == s[1..][i - 1];
      n
    else 0
  }

  /** The number of whitespace characters at the end of `s`. */
  function TrailingSpace(s: string): (n: nat)
    ensures n <= |s|
    ensures forall i :: |s| - n <= i < |s| ==> IsJsWhitespace(s[i])
    ensures n == |s| || !IsJsWhitespace(s[|s| - n - 1])
  {
    if |s| > 0 && IsJsWhitespace(s[|s| - 1]) then
      var init := s[..|s| - 1];
      var n := 1 + TrailingSpace(init);
      assert forall i :: |s| - n <= i < |s| - 1 ==> s[i] == init[i];
      n
    else 0
  }

  /** `s.trimStart()` */
  function TrimStart(s: string): string
  {
    s[LeadingSpace(s)..]
  }

  /** `s.trimEnd()` */
  function TrimEnd(s: string): string
  {
    s[..|s| - TrailingSpace(s)]
  }

  /** `s.trim()`: no whitespace at either end, and nothing that was not in `s`. */
  function Trim(s: string): (r: string)
    ensures Trimmed(r)
    ensures |r| <= |s| && forall c :: c in r ==> c in s
  {
    var t := TrimStart(s);
    var r := TrimEnd(t);
    if r == [] then r
    else
      assert r[0] == t[0];
      r
  }

  /** What `trim` removes: `s` is some whitespace, then the result, then some
      whitespace. */
  lemma TrimDecomposes(s: string, lead: nat, r: string)
    requires lead == LeadingSpace(s) && r == Trim(s)
    ensures lead + |r| <= |s| && AllWhitespace(s[..lead])
    ensures s[lead..lead + |r|] == r && AllWhitespace(s[lead + |r|..])
  {
    var t := s[lead..];
    TrimCuts(s, lead, t);
    TrimParts(s, lead, t, r);
  }

  /** `trim` is `trimStart` followed by the cut of `trimEnd`. */
  lemma TrimCuts(s: string, lead: nat, t: string)
    requires lead == LeadingSpace(s) && t == s[lead..]
    ensures Trim(s) == t[..|t| - TrailingSpace(t)]
  {
    assert TrimStart(s) == t;
  }

  lemma TrimParts(s: string, lead: nat, t: string, r: string)
    requires lead == LeadingSpace(s) && t == s[lead..] && r == t[..|t| - TrailingSpace(t)]
    ensures lead + |r| <= |s| && AllWhitespace(s[..lead])
    ensures s[lead..lead + |r|] == r && AllWhitespace(s[lead + |r|..])
  {
    LeadingPartIsSpace(s);
    TrailingPartIsSpace(t);
    assert s[lead..lead + |r|] == r by {
      forall i | 0 <= i < |r|
        ensures s[lead..lead + |r|][i] == r[i]
      {
        assert r[i] == t[i] == s[lead + i];
      }
    }
    assert s[lead + |r|..] == t[|r|..];
  }

  lemma LeadingPartIsSpace(s: string)
    ensures AllWhitespace(s[..LeadingSpace(s)])
  {
    var lead := LeadingSpace(s);
    forall i | 0 <= i < lead
      ensures IsJsWhitespace(s[..lead][i])
    {
      assert s[..lead][i] == s[i];
    }
  }

  lemma TrailingPartIsSpace(t: string)
    ensures AllWhitespace(t[|t| - TrailingSpace(t)..])
  {
    var cut := |t| - TrailingSpace(t);
    forall i | 0 <= i < |t| - cut
      ensures IsJsWhitespace(t[cut..][i])
    {
      assert t[cut..][i] == t[cut + i];
    }
  }

  lemma TrimStartSkips(lead: string, t: string)
    requires AllWhitespace(lead) && (t == [] || !IsJsWhitespace(t[0]))
    ensures TrimStart(lead + t) == t
  {
    if t != [] {
      assert (lead + t)[|lead|] == t[0];
    }
  }

  lemma TrimEndSkips(t: string, trail: string)
    requires AllWhitespace(trail) && (t == [] || !IsJsWhitespace(t[|t| - 1]))
    ensures TrimEnd(t + trail) == t
  {
    if t != [] {
      assert (t + trail)[|t| - 1] == t[|t| - 1];
    }
  }

  /** `trim` is determined by its contract: any split of `s` into whitespace,
      a string with no whitespace at either end, and whitespace, has that
      middle string as the trimmed result. */
  lemma TrimUnique(lead: string, r: string, trail: string)
    requires AllWhitespace(lead) && Trimmed(r) && AllWhitespace(trail)
    ensures Trim(lead + r + trail) == r
  {
    if r == [] {
      assert lead + r + trail == (lead + trail) + [];
      TrimStartSkips(lead + trail, []);
    } else {
      assert lead + r + trail == lead + (r + trail);
      TrimStartSkips(lead, r + trail);
      TrimEndSkips(r, trail);
    }
  }

  /** `s.replace(/c/g, "")` for a one-character pattern `c`. */
  function RemoveChar(s: string, c: char): (r: string)
    ensures c !in r
    ensures multiset(r) == multiset(s)[c := 0]
    ensures c !in s ==> r == s
  {
    if s == [] then []
    else
      assert s == [s[0]] + s[1..];
      (if s[0] == c then [] else [s[0]]) + RemoveChar(s[1..], c)
  }

  /** Removal works piece by piece, so it keeps the order of what is left. */
  lemma {:induction false} RemoveCharAppend(a: string, b: string, c: char)
    ensures RemoveChar(a + b, c) == RemoveChar(a, c) + RemoveChar(b, c)
    decreases |a|
  {
    if a != [] {
      var ab := a + b;
      assert ab[0] == a[0];
      assert ab[1..] == a[1..] + b;
      var head := if a[0] == c then [] else [a[0]];
      assert RemoveChar(ab, c) == head + RemoveChar(a[1..] + b, c);
      assert RemoveChar(a, c) == head + RemoveChar(a[1..], c);
      RemoveCharAppend(a[1..], b, c);
      Assoc(head, RemoveChar(a[1..], c), RemoveChar(b, c));
    } else {
      assert a + b == b;
    }
  }
}
