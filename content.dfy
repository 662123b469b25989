/**
  * Prose formatting for the detail pages (src/lib/content-utils.ts): splitting a long
  * description into paragraphs, and picking the most evocative sentence as a pull quote.
  * The two regular expressions that cut sentences out of the text are modelled by one
  * scanner.
  */
module Content {
  import opened Text
  import opened Collections

  // ---- Sentences ----

  predicate IsTerminator(c: char) {
    c == '.' || c == '!' || c == '?'
  }

  /** The three character classes the sentence expressions use: `[^.!?]`, `[.!?]` and `\s`. */
  datatype CharClass = Plain | Terminator | Space

  predicate InClass(c: char, k: CharClass) {
    match k
    case Plain => !IsTerminator(c)
    case Terminator => IsTerminator(c)
    case Space => IsSpace(c)
  }

  /** The length of the longest prefix of `s` in class `k`: what a greedy `[...]*` consumes. */
  function Run(s: string, k: CharClass): (n: nat)
    ensures n <= |s|
    ensures n < |s| ==> !InClass(s[n], k)
    decreases |s|
  {
    if s != [] && InClass(s[0], k) then 1 + Run(s[1..], k) else 0
  }

  /** A run stops at the first character outside the class. */
  lemma {:induction false} RunStops(s: string, k: CharClass, j: nat)
    requires j < |s| && !InClass(s[j], k)
    ensures Run(s, k) <= j
    decreases j
  {
    if j > 0 && InClass(s[0], k) {
      RunStops(s[1..], k, j - 1);
    }
  }

  /** A string all in the class is one run. */
  lemma {:induction false} RunWhole(s: string, k: CharClass)
    requires forall i :: 0 <= i < |s| ==> InClass(s[i], k)
    ensures Run(s, k) == |s|
    decreases |s|
  {
    if s != [] {
      RunWhole(s[1..], k);
    }
  }

  /** A run that stops inside `a` is not changed by what follows `a`. */
  lemma {:induction false} RunConcat(a: string, t: string, k: CharClass)
    ensures Run(a, k) < |a| ==> Run(a + t, k) == Run(a, k)
    ensures Run(a, k) == |a| ==> Run(a + t, k) == |a| + Run(t, k)
    decreases |a|
  {
    if a == [] {
      assert a + t == t;
    } else {
      assert (a + t)[1..] == a[1..] + t;
      RunConcat(a[1..], t, k);
    }
  }

  /** A run of a prefix is the run, cut at the end of the prefix. */
  lemma {:induction false} RunPrefix(s: string, k: CharClass, e: nat)
    requires e <= |s|
    ensures Run(s[..e], k) == if e < Run(s, k) then e else Run(s, k)
    decreases e
  {
    if e > 0 && InClass(s[0], k) {
      assert s[..e][1..] == s[1..][..e - 1];
      RunPrefix(s[1..], k, e - 1);
    }
  }

  /** Where the sentence found at the start of `s` ends, when `s[0]` is plain and a terminator follows. */
  function SentenceEnd(s: string, withSpace: bool): (e: nat)
    requires s != [] && !IsTerminator(s[0]) && Run(s, Plain) < |s|
    ensures Run(s, Plain) < e <= |s|
  {
    var n := Run(s, Plain);
    var m := n + Run(s[n..], Terminator);
    if withSpace then m + Run(s[m..], Space) else m
  }

  /**
    * The global matches of `/[^.!?]+[.!?]+\s*\/g` (`withSpace`) or `/[^.!?]+[.!?]+/g`:
    * a position holding a terminator is skipped; otherwise the match takes the plain run,
    * the terminator run after it and, in the first form, the white space after that. A
    * plain run that reaches the end of the text matches nothing, here or later.
    */
  function Sentences(s: string, withSpace: bool): seq<string>
    decreases |s|
  {
    if s == [] then []
    else if IsTerminator(s[0]) then Sentences(s[1..], withSpace)
    else if Run(s, Plain) == |s| then []
    else
      var e := SentenceEnd(s, withSpace);
      [s[..e]] + Sentences(s[e..], withSpace)
  }

  /** A sentence: plain characters, then terminators, then (in the first form) white space, and nothing else. */
  predicate IsSentence(x: string, withSpace: bool) {
    var n := Run(x, Plain);
    var m := n + Run(x[n..], Terminator);
    && 0 < n < m
    && (withSpace ==> m + Run(x[m..], Space) == |x|)
    && (!withSpace ==> m == |x|)
  }

  /** Cutting a string anywhere after its run leaves the run unchanged. */
  lemma RunPrefixPast(s: string, k: CharClass, e: nat)
    requires Run(s, k) <= e <= |s|
    ensures Run(s[..e], k) == Run(s, k)
  {
    RunPrefix(s, k, e);
  }

  /** A string that starts in the class has a non-empty run. */
  lemma RunStart(s: string, k: CharClass)
    requires s != [] && InClass(s[0], k)
    ensures Run(s, k) >= 1
  {
  }

  /** The run starting at `n` is the same in `s` and in `s` cut at `e`, when it ends before `e`. */
  lemma RunOfCut(s: string, k: CharClass, n: nat, e: nat)
    requires n <= e <= |s| && Run(s[n..], k) <= e - n
    ensures Run(s[..e][n..], k) == Run(s[n..], k)
  {
    assert s[..e][n..] == s[n..][..e - n];
    RunPrefixPast(s[n..], k, e - n);
  }

  lemma IsSentenceIntro(x: string, withSpace: bool, n: nat, m: nat)
    requires n == Run(x, Plain) && n <= |x| && m == n + Run(x[n..], Terminator) && 0 < n < m
    requires withSpace ==> m + Run(x[m..], Space) == |x|
    requires !withSpace ==> m == |x|
    ensures IsSentence(x, withSpace)
  {
    assert x[n..] == x[Run(x, Plain)..];
    assert x[m..] == x[Run(x, Plain) + Run(x[Run(x, Plain)..], Terminator)..];
  }

  lemma SentenceEndIsSentence(s: string, withSpace: bool)
    requires s != [] && !IsTerminator(s[0]) && Run(s, Plain) < |s|
    ensures IsSentence(s[..SentenceEnd(s, withSpace)], withSpace)
  {
    var n := Run(s, Plain);
    var m := n + Run(s[n..], Terminator);
    SentenceEndIs(s, withSpace, n, m);
    var e := SentenceEnd(s, withSpace);
    RunStart(s, Plain);
    RunStart(s[n..], Terminator);
    RunPrefixPast(s, Plain, e);
    RunOfCut(s, Terminator, n, e);
    if withSpace {
      RunOfCut(s, Space, m, e);
    }
    IsSentenceIntro(s[..e], withSpace, n, m);
  }

  /** Every match has the sentence shape. */
  lemma {:induction false} SentencesShape(s: string, withSpace: bool)
    ensures forall k :: 0 <= k < |Sentences(s, withSpace)| ==> IsSentence(Sentences(s, withSpace)[k], withSpace)
    decreases |s|
  {
    if s == [] {
    } else if IsTerminator(s[0]) {
      SentencesShape(s[1..], withSpace);
    } else if Run(s, Plain) < |s| {
      var e := SentenceEnd(s, withSpace);
      SentenceEndIsSentence(s, withSpace);
      SentencesShape(s[e..], withSpace);
    }
  }

  /** Text without a terminator holds no sentence. */
  lemma {:induction false} SentencesNoTerminator(t: string, withSpace: bool)
    requires forall i :: 0 <= i < |t| ==> !IsTerminator(t[i])
    ensures Sentences(t, withSpace) == []
  {
    if t != [] {
      RunWhole(t, Plain);
    }
  }

  /** A run starting at `n` inside `a` is not extended by `t` when it stops inside `a` or `t` does not continue it. */
  lemma RunOfConcatAt(a: string, t: string, k: CharClass, n: nat)
    requires n <= |a|
    requires Run(a[n..], k) < |a| - n || t == [] || !InClass(t[0], k)
    ensures Run((a + t)[n..], k) == Run(a[n..], k)
  {
    assert (a + t)[n..] == a[n..] + t;
    RunConcat(a[n..], t, k);
  }

  /** `SentenceEnd` in terms of the end of the plain run and of the terminator run. */
  lemma SentenceEndIs(s: string, withSpace: bool, n: nat, m: nat)
    requires s != [] && !IsTerminator(s[0]) && Run(s, Plain) < |s|
    requires n == Run(s, Plain) && m == n + Run(s[n..], Terminator)
    ensures SentenceEnd(s, withSpace) == if withSpace then m + Run(s[m..], Space) else m
  {
  }

  /** A terminator is not white space. */
  lemma TerminatorNotSpace(c: char)
    requires IsTerminator(c)
    ensures !InClass(c, Space) && !InClass(c, Plain)
  {
  }

  /** The white-space run after the terminators ends inside `a` and is not extended by `t`. */
  lemma SpaceRunConcat(a: string, t: string, m: nat)
    requires m <= |a| && a != [] && IsTerminator(a[|a| - 1])
    requires t == [] || !IsSpace(t[0])
    ensures Run((a + t)[m..], Space) == Run(a[m..], Space)
  {
    var am := a[m..];
    if m < |a| {
      assert am[|am| - 1] == a[|a| - 1];
      TerminatorNotSpace(a[|a| - 1]);
      RunStops(am, Space, |am| - 1);
    }
    RunOfConcatAt(a, t, Space, m);
  }

  lemma SentenceEndConcat(a: string, t: string, withSpace: bool)
    requires a != [] && !IsTerminator(a[0]) && IsTerminator(a[|a| - 1])
    requires t == [] || (!IsTerminator(t[0]) && (withSpace ==> !IsSpace(t[0])))
    ensures Run(a, Plain) < |a| && Run(a + t, Plain) == Run(a, Plain)
    ensures SentenceEnd(a + t, withSpace) == SentenceEnd(a, withSpace)
  {
    TerminatorNotSpace(a[|a| - 1]);
    RunStops(a, Plain, |a| - 1);
    RunConcat(a, t, Plain);
    var n := Run(a, Plain);
    RunOfConcatAt(a, t, Terminator, n);
    var m := n + Run(a[n..], Terminator);
    if withSpace {
      SpaceRunConcat(a, t, m);
    }
    SentenceEndIs(a, withSpace, n, m);
    SentenceEndIs(a + t, withSpace, n, m);
  }

  /** One step of the scan: a match at the front, then the matches of the rest. */
  lemma SentencesStep(s: string, withSpace: bool, e: nat)
    requires s != [] && !IsTerminator(s[0]) && Run(s, Plain) < |s|
    requires e == SentenceEnd(s, withSpace)
    ensures Sentences(s, withSpace) == [s[..e]] + Sentences(s[e..], withSpace)
  {
  }

  /** A leading terminator is skipped. */
  lemma SentencesSkip(s: string, withSpace: bool)
    requires s != [] && IsTerminator(s[0])
    ensures Sentences(s, withSpace) == Sentences(s[1..], withSpace)
  {
  }

  /** The step of SentencesConcat at a leading terminator, which both scans skip. */
  lemma SkipTerminatorConcat(a: string, t: string, withSpace: bool)
    requires a != [] && IsTerminator(a[0])
    requires Sentences(a[1..] + t, withSpace) == Sentences(a[1..], withSpace) + Sentences(t, withSpace)
    ensures Sentences(a + t, withSpace) == Sentences(a, withSpace) + Sentences(t, withSpace)
  {
    AppendSlices(a, t, 1);
    SentencesSkip(a + t, withSpace);
    SentencesSkip(a, withSpace);
  }

  /** The step of SentencesConcat at a match, which both scans find whole inside `a`. */
  lemma MatchConcat(a: string, t: string, withSpace: bool)
    requires a != [] && !IsTerminator(a[0]) && IsTerminator(a[|a| - 1])
    requires t == [] || (!IsTerminator(t[0]) && (withSpace ==> !IsSpace(t[0])))
    requires Run(a, Plain) < |a|
    requires var e := SentenceEnd(a, withSpace);
      Sentences(a[e..] + t, withSpace) == Sentences(a[e..], withSpace) + Sentences(t, withSpace)
    ensures Sentences(a + t, withSpace) == Sentences(a, withSpace) + Sentences(t, withSpace)
  {
    SentenceEndConcat(a, t, withSpace);
    var e := SentenceEnd(a, withSpace);
    AppendSlices(a, t, e);
    SentencesStep(a, withSpace, e);
    SentencesStep(a + t, withSpace, e);
    ConsAppend(a[..e], Sentences(a[e..], withSpace), Sentences(t, withSpace));
  }

  lemma {:induction false} SentencesConcat(a: string, t: string, withSpace: bool)
    requires a == [] || IsTerminator(a[|a| - 1])
    requires t == [] || (!IsTerminator(t[0]) && (withSpace ==> !IsSpace(t[0])))
    ensures Sentences(a + t, withSpace) == Sentences(a, withSpace) + Sentences(t, withSpace)
    decreases |a|
  {
    if a == [] {
      assert a + t == t;
    } else if IsTerminator(a[0]) {
      if |a| > 1 {
        SuffixLast(a, 1);
      }
      SentencesConcat(a[1..], t, withSpace);
      SkipTerminatorConcat(a, t, withSpace);
    } else {
      RunStops(a, Plain, |a| - 1);
      var e := SentenceEnd(a, withSpace);
      if e < |a| {
        SuffixLast(a, e);
      }
      SentencesConcat(a[e..], t, withSpace);
      MatchConcat(a, t, withSpace);
    }
  }

  /** Text after the last terminator yields no sentence: it is dropped. */
  lemma TrailingTextDropped(a: string, t: string, withSpace: bool)
    requires a == [] || IsTerminator(a[|a| - 1])
    requires forall i :: 0 <= i < |t| ==> !IsTerminator(t[i])
    requires withSpace && t != [] ==> !IsSpace(t[0])
    ensures Sentences(a + t, withSpace) == Sentences(a, withSpace)
  {
    SentencesConcat(a, t, withSpace);
    SentencesNoTerminator(t, withSpace);
  }

  // ---- splitIntoParagraphs ----

  const DefaultMinLength := 200

  /** The strings one after the other. */
  function Concat(xs: seq<string>): string
    decreases |xs|
  {
    if xs == [] then "" else xs[0] + Concat(xs[1..])
  }

  lemma {:induction false} ConcatAppend(a: seq<string>, b: seq<string>)
    ensures Concat(a + b) == Concat(a) + Concat(b)
    decreases |a|
  {
    if a == [] {
      assert a + b == b;
    } else {
      assert (a + b)[1..] == a[1..] + b;
      ConcatAppend(a[1..], b);
    }
  }

  lemma ConcatSnoc(xs: seq<string>, x: string)
    ensures Concat(xs + [x]) == Concat(xs) + x
  {
    ConcatAppend(xs, [x]);
    assert Concat([x]) == x + Concat([]);
    assert x + "" == x;
  }

  /** Groups of `size` consecutive sentences, each group glued together; the last group may be shorter. */
  function Chunks(xs: seq<string>, size: nat): seq<string>
    requires size > 0
    decreases |xs|
  {
    if xs == [] then []
    else if |xs| <= size then [Concat(xs)]
    else [Concat(xs[..size])] + Chunks(xs[size..], size)
  }

  /** Grouping neither loses nor reorders text. */
  lemma {:induction false} ChunksConcat(xs: seq<string>, size: nat)
    requires size > 0
    ensures Concat(Chunks(xs, size)) == Concat(xs)
    decreases |xs|
  {
    if xs != [] && |xs| > size {
      ChunksConcat(xs[size..], size);
      assert xs == xs[..size] + xs[size..];
      ConcatAppend(xs[..size], xs[size..]);
      assert ([Concat(xs[..size])] + Chunks(xs[size..], size))[1..] == Chunks(xs[size..], size);
    } else if xs != [] {
      assert [Concat(xs)][1..] == [];
    }
  }

  /** `k` groups of `size` hold at least the sentences, so there are at most `k` groups. */
  lemma {:induction false} ChunksAtMost(xs: seq<string>, size: nat, k: nat)
    requires size > 0 && |xs| <= k * size
    ensures |Chunks(xs, size)| <= k
    decreases |xs|
  {
    if |xs| > size {
      assert |xs[size..]| <= (k - 1) * size;
      ChunksAtMost(xs[size..], size, k - 1);
    }
  }

  /** Appending one group of at most `size` sentences after whole groups appends one chunk. */
  lemma {:induction false} ChunksSnoc(p: seq<string>, c: seq<string>, size: nat, q: nat)
    requires size > 0 && |p| == q * size && 1 <= |c| <= size
    ensures Chunks(p + c, size) == Chunks(p, size) + [Concat(c)]
    decreases q
  {
    if q == 0 {
      assert p + c == c;
    } else {
      assert |p| == (q - 1) * size + size;
      assert (p + c)[..size] == p[..size];
      assert (p + c)[size..] == p[size..] + c;
      ChunksSnoc(p[size..], c, size, q - 1);
    }
  }

  function Ceil(a: nat, b: nat): nat
    requires b > 0
  {
    (a + b - 1) / b
  }

  function Min(a: nat, b: nat): nat {
    if a < b then a else b
  }

  /** `Math.ceil(n / Math.min(3, Math.ceil(n / 3)))`: the group size that spreads `n` sentences over at most three paragraphs. */
  function TargetSize(n: nat): (size: nat)
    requires n >= 3
    ensures size > 0
  {
    Ceil(n, Min(3, Ceil(n, 3)))
  }

  /** Three groups of the target size or fewer cover all the sentences. */
  lemma TargetSizeCovers(n: nat)
    requires n >= 3
    ensures n <= Min(3, Ceil(n, 3)) * TargetSize(n) && Min(3, Ceil(n, 3)) <= 3
  {
    var k := Min(3, Ceil(n, 3));
    if k == 1 {
      assert TargetSize(n) == n;
    } else if k == 2 {
      assert TargetSize(n) == (n + 1) / 2;
    } else {
      assert TargetSize(n) == (n + 2) / 3;
    }
  }

  predicate Filled(p: string) {
    p != []
  }

  function TrimAll(xs: seq<string>): (r: seq<string>)
    ensures |r| == |xs| && forall i :: 0 <= i < |xs| ==> r[i] == Trim(xs[i])
  {
    seq(|xs|, i requires 0 <= i < |xs| => Trim(xs[i]))
  }

  lemma TrimAllSnoc(xs: seq<string>, x: string)
    ensures TrimAll(xs + [x]) == TrimAll(xs) + [Trim(x)]
  {
  }

  /** Drops every newline at the front: the rest of a `\n\n+` match. */
  function DropNewlines(s: string): (r: string)
    ensures |r| <= |s| && r == s[|s| - |r|..]
    ensures r == [] || r[0] != '\n'
  {
    if s != [] && s[0] == '\n' then DropNewlines(s[1..]) else s
  }

  /** `text.split(/\n\n+/)`: cut at every run of two or more newlines. */
  function SplitBlank(s: string): (r: seq<string>)
    ensures |r| >= 1 && |r[0]| <= |s| && r[0] == s[..|r[0]|]
    decreases |s|
  {
    if s == [] then [""]
    else if |s| >= 2 && s[0] == '\n' && s[1] == '\n' then [""] + SplitBlank(DropNewlines(s))
    else
      var rest := SplitBlank(s[1..]);
      assert [s[0]] + rest[0] == s[..1 + |rest[0]|];
      [[s[0]] + rest[0]] + rest[1..]
  }

  /** No two newlines in a row. */
  predicate NoBlankLine(s: string) {
    forall i, j :: 0 <= i < |s| && 0 <= j < |s| && j == i + 1 ==> !(s[i] == '\n' && s[j] == '\n')
  }

  lemma {:induction false} SplitBlankPieces(s: string)
    ensures forall k :: 0 <= k < |SplitBlank(s)| ==> NoBlankLine(SplitBlank(s)[k])
    decreases |s|
  {
    if s == [] {
    } else if |s| >= 2 && s[0] == '\n' && s[1] == '\n' {
      SplitBlankPieces(DropNewlines(s));
    } else {
      var rest := SplitBlank(s[1..]);
      SplitBlankPieces(s[1..]);
      var w := [s[0]] + rest[0];
      assert NoBlankLine(rest[0]);
      forall i, j | 0 <= i < |w| && 0 <= j < |w| && j == i + 1 ensures !(w[i] == '\n' && w[j] == '\n') {
        if i == 0 {
          assert w[1] == rest[0][0] == s[1];
        } else {
          assert w[i] == rest[0][i - 1] && w[j] == rest[0][j - 1];
        }
      }
      forall k | 0 <= k < |SplitBlank(s)| ensures NoBlankLine(SplitBlank(s)[k]) {
        if k > 0 {
          assert SplitBlank(s)[k] == rest[k];
        }
      }
    }
  }

  lemma NoBlankLineTrim(s: string)
    requires NoBlankLine(s)
    ensures NoBlankLine(Trim(s))
  {
    var d := TrimSlice(s);
    var r := Trim(s);
    assert forall i :: 0 <= i < |r| ==> r[i] == s[d + i];
  }

  /** The paragraphs `splitIntoParagraphs` returns, stated branch by branch. */
  function Paragraphs(text: string, minLength: int): seq<string> {
    if Contains(text, "\n\n") then Keep(TrimAll(SplitBlank(text)), Filled)
    else if Utf16Length(text) < minLength then [Trim(text)]
    else
      var matched := Sentences(text, true);
      var sentences := if matched == [] then [text] else matched;
      if |sentences| <= 2 then [Trim(text)]
      else Keep(TrimAll(Chunks(sentences, TargetSize(|sentences|))), Filled)
  }

  /** `splitIntoParagraphs`: the sentence branch glues sentences until a group is full or the text ends. */
  method SplitIntoParagraphs(text: string, minLength: int) returns (paragraphs: seq<string>)
    ensures paragraphs == Paragraphs(text, minLength)
  {
    if Contains(text, "\n\n") {
      return Keep(TrimAll(SplitBlank(text)), Filled);
    }
    if Utf16Length(text) < minLength {
      return [Trim(text)];
    }
    var matched := Sentences(text, true);
    var sentences := if matched == [] then [text] else matched;
    if |sentences| <= 2 {
      return [Trim(text)];
    }
    var groups := GroupSentences(sentences, TargetSize(|sentences|));
    paragraphs := Keep(groups, Filled);
  }

  /** The state of the grouping loop before sentence `i`: the groups closed so far, and the open group from `start`. */
  ghost predicate Grouped(xs: seq<string>, size: nat, i: nat, start: nat, q: nat, current: string, groups: seq<string>)
  {
    && size > 0 && start <= i <= |xs|
    && (i < |xs| ==> i - start < size && start == q * size)
    && (i == |xs| ==> start == |xs|)
    && current == Concat(xs[start..i])
    && groups == TrimAll(Chunks(xs[..start], size))
  }

  /** The open group grows by the next sentence. */
  lemma GroupedGlue(xs: seq<string>, start: nat, i: nat, current: string)
    requires start <= i < |xs| && current == Concat(xs[start..i])
    ensures current + xs[i] == Concat(xs[start..i + 1])
  {
    ConcatSnoc(xs[start..i], xs[i]);
    assert xs[start..i + 1] == xs[start..i] + [xs[i]];
  }

  /** A turn of the grouping loop that closes the open group keeps its state. */
  lemma GroupedFlush(xs: seq<string>, size: nat, i: nat, start: nat, q: nat, current: string, groups: seq<string>)
    requires i < |xs| && Grouped(xs, size, i, start, q, current, groups)
    requires (i + 1) % size == 0 || i == |xs| - 1
    ensures Grouped(xs, size, i + 1, i + 1, q + 1, "", groups + [Trim(current + xs[i])])
  {
    GroupedGlue(xs, start, i, current);
    FlushGroup(xs, size, start, i, q, groups);
    if i + 1 < |xs| {
      GroupEnd(q, size, i + 1 - start);
      NextGroupStart(q, size, start, i + 1);
    }
  }

  lemma NextGroupStart(q: nat, size: nat, start: nat, j: nat)
    requires start == q * size && j - start == size
    ensures j == (q + 1) * size
  {
  }

  /** A turn of the grouping loop that keeps the group open keeps its state. */
  lemma GroupedGrow(xs: seq<string>, size: nat, i: nat, start: nat, q: nat, current: string, groups: seq<string>)
    requires i < |xs| && Grouped(xs, size, i, start, q, current, groups)
    requires !((i + 1) % size == 0 || i == |xs| - 1)
    ensures Grouped(xs, size, i + 1, start, q, current + xs[i], groups)
  {
    GroupedGlue(xs, start, i, current);
    GroupEnd(q, size, i + 1 - start);
  }

  /** The loop of the sentence branch: glue sentences until a group is full or the sentences run out. */
  method GroupSentences(sentences: seq<string>, targetSize: nat) returns (groups: seq<string>)
    requires targetSize > 0
    ensures groups == TrimAll(Chunks(sentences, targetSize))
  {
    var n := |sentences|;
    groups := [];
    var current := "";
    ghost var start := 0;
    ghost var q := 0;
    assert sentences[..0] == [];
    for i := 0 to n
      invariant Grouped(sentences, targetSize, i, start, q, current, groups)
    {
      if (i + 1) % targetSize == 0 || i == n - 1 {
        GroupedFlush(sentences, targetSize, i, start, q, current, groups);
        current := current + sentences[i];
        groups := groups + [Trim(current)];
        current := "";
        start := i + 1;
        q := q + 1;
      } else {
        GroupedGrow(sentences, targetSize, i, start, q, current, groups);
        current := current + sentences[i];
      }
    }
    assert sentences[..n] == sentences;
  }

  /** Closing the group that runs from `start` to `i` appends it, glued and trimmed, to the groups before it. */
  lemma FlushGroup(xs: seq<string>, size: nat, start: nat, i: nat, q: nat, groups: seq<string>)
    requires size > 0 && start <= i < |xs| && start == q * size && i + 1 - start <= size
    requires groups == TrimAll(Chunks(xs[..start], size))
    ensures groups + [Trim(Concat(xs[start..i + 1]))] == TrimAll(Chunks(xs[..i + 1], size))
  {
    assert xs[..i + 1] == xs[..start] + xs[start..i + 1];
    ChunksSnoc(xs[..start], xs[start..i + 1], size, q);
    TrimAllSnoc(Chunks(xs[..start], size), Concat(xs[start..i + 1]));
  }

  lemma MulAtLeast(a: int, size: int)
    requires a >= 1 && size > 0
    ensures a * size >= size
  {
  }

  /** Euclidean division is unique: `q * size + d` leaves remainder `d`. */
  lemma ModOfOffset(q: int, size: int, d: int)
    requires size > 0 && 0 <= d < size
    ensures (q * size + d) % size == d
  {
    var x := q * size + d;
    var q2 := x / size;
    var r2 := x % size;
    assert (q2 - q) * size == d - r2;
    if q2 - q >= 1 {
      MulAtLeast(q2 - q, size);
      assert false;
    }
    if q - q2 >= 1 {
      MulAtLeast(q - q2, size);
      assert false;
    }
  }

  /** Inside a group that starts at `q * size`, the position `d` after its start completes the group exactly when `d == size`. */
  lemma GroupEnd(q: nat, size: nat, d: nat)
    requires size > 0 && 1 <= d <= size
    ensures (q * size + d) % size == 0 <==> d == size
  {
    if d == size {
      assert q * size + d == (q + 1) * size + 0;
      ModOfOffset(q + 1, size, 0);
    } else {
      ModOfOffset(q, size, d);
    }
  }

  /** A trimmed piece without a blank line inside. */
  predicate CleanPiece(p: string) {
    IsTrimmed(p) && NoBlankLine(p)
  }

  /** The kept pieces of a blank-line split are trimmed, non-empty and free of blank lines. */
  lemma BlankLinePieces(text: string)
    ensures forall k :: 0 <= k < |Keep(TrimAll(SplitBlank(text)), Filled)| ==>
      var p := Keep(TrimAll(SplitBlank(text)), Filled)[k];
      p != [] && IsTrimmed(p) && NoBlankLine(p)
  {
    var split := SplitBlank(text);
    var pieces := TrimAll(split);
    SplitBlankPieces(text);
    forall k | 0 <= k < |pieces| ensures CleanPiece(pieces[k]) {
      NoBlankLineTrim(split[k]);
    }
    KeepPreserves(pieces, Filled, CleanPiece);
  }

  /** With a blank line in the text, the paragraphs are its blank-line-separated pieces: trimmed, non-empty, with no blank line inside. */
  lemma BlankLineParagraphs(text: string, minLength: int)
    requires Contains(text, "\n\n")
    ensures forall k :: 0 <= k < |Paragraphs(text, minLength)| ==>
      var p := Paragraphs(text, minLength)[k];
      p != [] && IsTrimmed(p) && NoBlankLine(p)
  {
    assert Paragraphs(text, minLength) == Keep(TrimAll(SplitBlank(text)), Filled);
    BlankLinePieces(text);
  }

  /** Short text, or text with at most two sentences, is one trimmed paragraph. */
  lemma ShortTextOneParagraph(text: string, minLength: int)
    requires !Contains(text, "\n\n")
    requires Utf16Length(text) < minLength || |Sentences(text, true)| <= 2
    ensures Paragraphs(text, minLength) == [Trim(text)]
  {
  }

  /**
    * Long text is spread over at most three paragraphs; before trimming, the groups
    * hold all the sentences in order.
    */
  lemma SentenceParagraphs(text: string, minLength: int)
    requires !Contains(text, "\n\n") && Utf16Length(text) >= minLength && |Sentences(text, true)| > 2
    ensures |Paragraphs(text, minLength)| <= 3
    ensures Concat(Chunks(Sentences(text, true), TargetSize(|Sentences(text, true)|))) == Concat(Sentences(text, true))
  {
    var sentences := Sentences(text, true);
    var size := TargetSize(|sentences|);
    TargetSizeCovers(|sentences|);
    ChunksAtMost(sentences, size, Min(3, Ceil(|sentences|, 3)));
    ChunksConcat(sentences, size);
  }

  // ---- extractPullQuote ----

  const MinQuoteText := 150
  const MinQuoteLength := 40
  const MaxQuoteLength := 200

  const EvocativeWords: seq<string> := [
    "ancient", "centuries", "tradition", "revered", "prized", "legendary",
    "sacred", "renowned", "celebrated", "treasured", "distinctive", "unique",
    "remarkable", "extraordinary", "delicate", "complex", "rich", "profound",
    "transforms", "unfolds", "emerges", "reveals", "embodies", "essence"]

  /** How many of `words` occur in `lower`. */
  function WordCount(lower: string, words: seq<string>): (n: nat)
    ensures n <= |words|
    decreases |words|
  {
    if words == [] then 0
    else WordCount(lower, words[..|words| - 1]) + (if Contains(lower, words[|words| - 1]) then 1 else 0)
  }

  /**
    * Twice the source's score: two points per evocative word the lower-cased trimmed
    * sentence contains, and one (the half point) when the sentence differs from the first.
    */
  function QuoteScore(sentence: string, first: string): nat {
    2 * WordCount(Lower(Trim(sentence)), EvocativeWords) + (if sentence != first then 1 else 0)
  }

  /** The trimmed sentence is neither too short nor too long to quote. */
  predicate Quotable(sentence: string) {
    MinQuoteLength <= Utf16Length(Trim(sentence)) <= MaxQuoteLength
  }

  /** The score of every sentence, in order. */
  function Scores(sents: seq<string>): (r: seq<nat>)
    requires |sents| > 0
    ensures |r| == |sents| && forall j :: 0 <= j < |sents| ==> r[j] == QuoteScore(sents[j], sents[0])
  {
    seq(|sents|, j requires 0 <= j < |sents| => QuoteScore(sents[j], sents[0]))
  }

  /** Which sentences are of quotable length, in order. */
  function Eligible(sents: seq<string>): (r: seq<bool>)
    ensures |r| == |sents| && forall j :: 0 <= j < |sents| ==> r[j] == Quotable(sents[j])
  {
    seq(|sents|, j requires 0 <= j < |sents| => Quotable(sents[j]))
  }

  /** Position `i` is eligible and has the strictly greatest score among the eligible positions before `upTo`: the earliest on ties. */
  predicate BestBefore(scores: seq<nat>, ok: seq<bool>, upTo: nat, i: nat)
    requires |ok| == |scores| && upTo <= |scores|
  {
    && i < upTo
    && ok[i]
    && (forall j :: 0 <= j < upTo && ok[j] ==> scores[j] <= scores[i])
    && (forall j :: 0 <= j < i && ok[j] ==> scores[j] < scores[i])
  }

  /** The score loop over the evocative words. */
  method CountWords(lower: string) returns (count: nat)
    ensures count == WordCount(lower, EvocativeWords)
  {
    count := 0;
    for k := 0 to |EvocativeWords|
      invariant count == WordCount(lower, EvocativeWords[..k])
    {
      assert EvocativeWords[..k + 1][..k] == EvocativeWords[..k];
      if Contains(lower, EvocativeWords[k]) {
        count := count + 1;
      }
    }
    assert EvocativeWords[..|EvocativeWords|] == EvocativeWords;
  }

  /** What the pull-quote loop knows after the first `k` positions: the best score so far bounds every eligible score, and a positive best belongs to the earliest position reaching it. */
  ghost predicate Scanned(scores: seq<nat>, ok: seq<bool>, k: nat, bestScore: nat, best: nat)
    requires |ok| == |scores| && k <= |scores|
  {
    && (forall j :: 0 <= j < k && ok[j] ==> scores[j] <= bestScore)
    && (bestScore > 0 ==> BestBefore(scores, ok, k, best) && scores[best] == bestScore)
  }

  /** A position that is not eligible changes nothing. */
  lemma ScannedSkip(scores: seq<nat>, ok: seq<bool>, k: nat, bestScore: nat, best: nat)
    requires |ok| == |scores| && k < |scores| && Scanned(scores, ok, k, bestScore, best) && !ok[k]
    ensures Scanned(scores, ok, k + 1, bestScore, best)
  {
  }

  /** An eligible position that does not beat the best changes nothing. */
  lemma ScannedKeep(scores: seq<nat>, ok: seq<bool>, k: nat, bestScore: nat, best: nat)
    requires |ok| == |scores| && k < |scores| && Scanned(scores, ok, k, bestScore, best)
    requires ok[k] && scores[k] <= bestScore
    ensures Scanned(scores, ok, k + 1, bestScore, best)
  {
  }

  /** An eligible position with a strictly greater score becomes the best. */
  lemma ScannedImprove(scores: seq<nat>, ok: seq<bool>, k: nat, bestScore: nat, best: nat)
    requires |ok| == |scores| && k < |scores| && Scanned(scores, ok, k, bestScore, best)
    requires ok[k] && scores[k] > bestScore
    ensures Scanned(scores, ok, k + 1, scores[k], k)
  {
  }

  /**
    * `extractPullQuote`: nothing for short text or fewer than three sentences; otherwise
    * the trimmed best sentence when it scores above zero.
    */
  method ExtractPullQuote(text: string) returns (quote: Option<string>)
    ensures Utf16Length(text) < MinQuoteText || |Sentences(text, false)| < 3 ==> quote.None?
    ensures Utf16Length(text) >= MinQuoteText && |Sentences(text, false)| >= 3 ==>
      var sents := Sentences(text, false);
      (quote.Some? <==> exists j :: 0 <= j < |sents| && Eligible(sents)[j] && Scores(sents)[j] > 0)
    ensures quote.Some? ==>
      var sents := Sentences(text, false);
      |sents| >= 3 && exists i: nat :: BestBefore(Scores(sents), Eligible(sents), |sents|, i) && Scores(sents)[i] > 0 && quote.value == Trim(sents[i])
  {
    if Utf16Length(text) < MinQuoteText {
      return None;
    }
    var sents := Sentences(text, false);
    if |sents| < 3 {
      return None;
    }
    quote := BestSentence(sents);
  }

  /** After the whole scan, a positive best score exists exactly when some eligible position scores above zero. */
  lemma ScannedAll(scores: seq<nat>, ok: seq<bool>, bestScore: nat, best: nat)
    requires |ok| == |scores| && Scanned(scores, ok, |scores|, bestScore, best)
    ensures bestScore > 0 <==> exists j :: 0 <= j < |scores| && ok[j] && scores[j] > 0
  {
    if bestScore > 0 {
      assert ok[best] && scores[best] > 0;
    }
  }

  /** One position of the scoring loop: the trimmed sentence, whether it is of quotable length, and its score when it is. */
  method ScoreSentence(sentence: string, first: string) returns (eligible: bool, trimmed: string, score: nat)
    ensures trimmed == Trim(sentence) && eligible == Quotable(sentence)
    ensures eligible ==> score == QuoteScore(sentence, first)
  {
    trimmed := Trim(sentence);
    if Utf16Length(trimmed) < MinQuoteLength || Utf16Length(trimmed) > MaxQuoteLength {
      return false, trimmed, 0;
    }
    var words := CountWords(Lower(trimmed));
    score := 2 * words;
    if sentence != first {
      score := score + 1;
    }
    eligible := true;
  }

  /** The scoring loop of `extractPullQuote` over the matched sentences. */
  method BestSentence(sents: seq<string>) returns (quote: Option<string>)
    requires |sents| > 0
    ensures quote.Some? <==> exists j :: 0 <= j < |sents| && Eligible(sents)[j] && Scores(sents)[j] > 0
    ensures quote.Some? ==>
      exists i: nat :: BestBefore(Scores(sents), Eligible(sents), |sents|, i) && Scores(sents)[i] > 0 && quote.value == Trim(sents[i])
  {
    ghost var scores := Scores(sents);
    ghost var ok := Eligible(sents);
    var bestScore := 0;
    var bestSentence := "";
    ghost var best := 0;
    for k := 0 to |sents|
      invariant Scanned(scores, ok, k, bestScore, best)
      invariant bestScore > 0 ==> best < |sents| && bestSentence == Trim(sents[best])
    {
      var eligible, trimmed, score := ScoreSentence(sents[k], sents[0]);
      if !eligible {
        ScannedSkip(scores, ok, k, bestScore, best);
        continue;
      }
      if score > bestScore {
        ScannedImprove(scores, ok, k, bestScore, best);
        bestScore := score;
        bestSentence := trimmed;
        best := k;
      } else {
        ScannedKeep(scores, ok, k, bestScore, best);
      }
    }
    ScannedAll(scores, ok, bestScore, best);
    if bestScore > 0 {
      quote := Some(bestSentence);
    } else {
      quote := None;
    }
  }

  /** A pull quote is a trimmed sentence of quotable length. */
  lemma PullQuoteLength(sents: seq<string>, i: nat)
    requires 0 < |sents| && BestBefore(Scores(sents), Eligible(sents), |sents|, i)
    ensures MinQuoteLength <= Utf16Length(Trim(sents[i])) <= MaxQuoteLength && IsTrimmed(Trim(sents[i]))
  {
  }
}
