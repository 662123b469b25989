/**
  * String helpers shared by the models: JavaScript's white-space class (used by `\s`
  * and `String.prototype.trim`), ASCII case mapping, trimming, prefix and substring
  * tests, and the two kinds of `split` the sources use.
  */
module Text {

  /** The characters JavaScript counts as white space in `\s` and in `trim`. */
  predicate IsSpace(c: char) {
    if c <= ' ' then IsAsciiSpace(c) else IsWideSpace(c)
  }

  /** Space, tab, line feed, vertical tab, form feed and carriage return. */
  predicate IsAsciiSpace(c: char) {
    c == ' ' || c == '\t' || c == '\n' || c == '\U{B}' || c == '\U{C}' || c == '\r'
  }

  /** No-break space, the Unicode space separators, the line and paragraph separators and the byte order mark. */
  predicate IsWideSpace(c: char) {
    || c == '\U{A0}' || c == '\U{1680}' || ('\U{2000}' <= c <= '\U{200A}')
    || c == '\U{2028}' || c == '\U{2029}' || c == '\U{202F}' || c == '\U{205F}'
    || c == '\U{3000}' || c == '\U{FEFF}'
  }

  predicate IsUpperAscii(c: char) { 'A' <= c <= 'Z' }
  predicate IsLowerAscii(c: char) { 'a' <= c <= 'z' }
  predicate IsDigit(c: char) { '0' <= c <= '9' }

  /** A character outside the Basic Multilingual Plane, which UTF-16 stores as a surrogate pair. */
  predicate IsAstral(c: char) {
    c as int > 0xFFFF
  }

  /**
    * `s.length`: JavaScript counts UTF-16 code units, so every character outside the Basic
    * Multilingual Plane counts twice (an emoji such as U+1F33F is one character, two units).
    */
  function Utf16Length(s: string): (n: nat)
    ensures |s| <= n <= 2 * |s|
    ensures (forall i :: 0 <= i < |s| ==> !IsAstral(s[i])) ==> n == |s|
    decreases |s|
  {
    if s == [] then 0 else Utf16Length(s[..|s| - 1]) + (if IsAstral(s[|s| - 1]) then 2 else 1)
  }

  /** Code units add up over a concatenation. */
  lemma {:induction false} Utf16LengthConcat(a: string, b: string)
    ensures Utf16Length(a + b) == Utf16Length(a) + Utf16Length(b)
    decreases |b|
  {
    if b == [] {
      assert a + b == a;
    } else {
      var b' := b[..|b| - 1];
      assert (a + b)[..|a + b| - 1] == a + b';
      Utf16LengthConcat(a, b');
    }
  }

  function ToLower(c: char): char {
    if IsUpperAscii(c) then (c as int + 32) as char else c
  }

  function ToUpper(c: char): char {
    if IsLowerAscii(c) then (c as int - 32) as char else c
  }

  /** `toLowerCase`, restricted to ASCII letters. */
  function Lower(s: string): (r: string)
    ensures |r| == |s|
  {
    seq(|s|, i requires 0 <= i < |s| => ToLower(s[i]))
  }

  predicate HasNoUpper(s: string) {
    forall i :: 0 <= i < |s| ==> !IsUpperAscii(s[i])
  }

  lemma LowerHasNoUpper(s: string)
    ensures HasNoUpper(Lower(s))
  {
  }

  lemma LowerOfLowerCase(s: string)
    requires HasNoUpper(s)
    ensures Lower(s) == s
  {
  }

  lemma LowerConcat(a: string, b: string)
    ensures Lower(a + b) == Lower(a) + Lower(b)
  {
  }

  predicate HasNoSpace(s: string) {
    forall i :: 0 <= i < |s| ==> !IsSpace(s[i])
  }

  /** No white space at either end. */
  predicate IsTrimmed(s: string) {
    s == [] || (!IsSpace(s[0]) && !IsSpace(s[|s| - 1]))
  }

  /** Drops the leading white space: what is dropped is white space, what is kept is a suffix. */
  function TrimStart(s: string): (r: string)
    ensures |r| <= |s| && r == s[|s| - |r|..]
    ensures forall i :: 0 <= i < |s| - |r| ==> IsSpace(s[i])
    ensures r == [] || !IsSpace(r[0])
  {
    if s != [] && IsSpace(s[0]) then TrimStart(s[1..]) else s
  }

  /** Drops the trailing white space: what is dropped is white space, what is kept is a prefix. */
  function TrimEnd(s: string): (r: string)
    ensures |r| <= |s| && r == s[..|r|]
    ensures forall i :: |r| <= i < |s| ==> IsSpace(s[i])
    ensures r == [] || !IsSpace(r[|r| - 1])
  {
    if s != [] && IsSpace(s[|s| - 1]) then TrimEnd(s[..|s| - 1]) else s
  }

  /** `String.prototype.trim`. */
  function Trim(s: string): (r: string)
    ensures IsTrimmed(r)
    ensures |r| <= |s|
  {
    var t := TrimStart(s);
    var r := TrimEnd(t);
    if r != [] then
      assert r[0] == t[0];
      r
    else r
  }

  /** Where the trimmed string sits in the original: right after a (possibly empty) run of white space. */
  lemma TrimSlice(s: string) returns (d: nat)
    ensures d + |Trim(s)| <= |s| && Trim(s) == s[d..d + |Trim(s)|]
    ensures d > 0 ==> IsSpace(s[d - 1])
  {
    var t := TrimStart(s);
    d := |s| - |t|;
    assert s[d..d + |Trim(s)|] == t[..|Trim(s)|];
  }

  lemma TrimTrimmed(s: string)
    requires IsTrimmed(s)
    ensures Trim(s) == s
  {
  }

  lemma TrimNoSpace(s: string)
    requires HasNoSpace(s)
    ensures Trim(s) == s
  {
  }

  /** Trimming commutes with the ASCII case mapping, which never touches white space. */
  lemma TrimLower(s: string)
    ensures Trim(Lower(s)) == Lower(Trim(s))
  {
    TrimStartLower(s);
    TrimEndLower(TrimStart(s));
  }

  /** The case mapping never turns white space into something else, nor anything else into white space. */
  lemma ToLowerSpace(c: char)
    ensures IsSpace(ToLower(c)) <==> IsSpace(c)
  {
    if IsUpperAscii(c) {
      assert IsLowerAscii(ToLower(c));
    }
  }

  lemma {:induction false} TrimStartLower(s: string)
    ensures TrimStart(Lower(s)) == Lower(TrimStart(s))
  {
    var l := Lower(s);
    if s != [] {
      ToLowerSpace(s[0]);
      assert l[0] == ToLower(s[0]);
      if IsSpace(s[0]) {
        assert l[1..] == Lower(s[1..]);
        TrimStartLower(s[1..]);
      }
    }
  }

  lemma {:induction false} TrimEndLower(s: string)
    ensures TrimEnd(Lower(s)) == Lower(TrimEnd(s))
  {
    var l := Lower(s);
    if s != [] {
      ToLowerSpace(s[|s| - 1]);
      assert l[|s| - 1] == ToLower(s[|s| - 1]);
      if IsSpace(s[|s| - 1]) {
        assert l[..|s| - 1] == Lower(s[..|s| - 1]);
        TrimEndLower(s[..|s| - 1]);
      }
    }
  }

  predicate StartsWith(s: string, prefix: string) {
    |prefix| <= |s| && s[..|prefix|] == prefix
  }

  predicate EndsWith(s: string, suffix: string) {
    |suffix| <= |s| && s[|s| - |suffix|..] == suffix
  }

  /** `String.prototype.includes`. */
  predicate Contains(s: string, sub: string)
    decreases |s|
  {
    StartsWith(s, sub) || (s != [] && Contains(s[1..], sub))
  }

  /** `s.split(sep)` for a one-character separator. */
  function Split(s: string, sep: char): (r: seq<string>)
    ensures |r| >= 1
    decreases |s|
  {
    if s == [] then [""]
    else
      var rest := Split(s[1..], sep);
      if s[0] == sep then [""] + rest else [[s[0]] + rest[0]] + rest[1..]
  }

  /** `parts.join(sep)`. */
  function Join(parts: seq<string>, sep: string): string
    decreases |parts|
  {
    if parts == [] then ""
    else if |parts| == 1 then parts[0]
    else parts[0] + sep + Join(parts[1..], sep)
  }

  function Count(s: string, c: char): nat {
    if s == [] then 0 else (if s[0] == c then 1 else 0) + Count(s[1..], c)
  }

  /** Joining two non-empty lists is joining each and gluing them with the separator. */
  lemma {:induction false} JoinAppend(xs: seq<string>, ys: seq<string>, sep: string)
    requires xs != [] && ys != []
    ensures Join(xs + ys, sep) == Join(xs, sep) + sep + Join(ys, sep)
    decreases |xs|
  {
    var zs := xs + ys;
    assert zs[0] == xs[0];
    if |xs| == 1 {
      assert zs[1..] == ys;
    } else {
      assert zs[1..] == xs[1..] + ys;
      JoinAppend(xs[1..], ys, sep);
      var j1, j2 := Join(xs[1..], sep), Join(ys, sep);
      assert xs[0] + sep + (j1 + sep + j2) == (xs[0] + sep + j1) + sep + j2;
    }
  }

  /** Splitting and joining back with the same separator gives the string back. */
  lemma {:induction false} JoinSplit(s: string, sep: char)
    ensures Join(Split(s, sep), [sep]) == s
  {
    if s != [] {
      var rest := Split(s[1..], sep);
      JoinSplit(s[1..], sep);
      if s[0] == sep {
        assert Split(s, sep) == [""] + rest;
      } else {
        var r := Split(s, sep);
        assert r[1..] == rest[1..];
        if |rest| == 1 {
        } else {
          assert Join(rest, [sep]) == rest[0] + [sep] + Join(rest[1..], [sep]);
        }
      }
    }
  }

  /** The pieces of a split never contain the separator, and there is one more piece than separators. */
  lemma {:induction false} SplitPieces(s: string, sep: char)
    ensures |Split(s, sep)| == Count(s, sep) + 1
    ensures forall k :: 0 <= k < |Split(s, sep)| ==> sep !in Split(s, sep)[k]
  {
    if s != [] {
      SplitPieces(s[1..], sep);
    }
  }

  /** `s.split(/\s+/)`: every maximal run of white space separates two pieces. */
  function SplitWs(s: string): (r: seq<string>)
    ensures |r| >= 1
    decreases |s|
  {
    if s == [] then [""]
    else
      var rest := SplitWs(s[1..]);
      if IsSpace(s[0]) then
        (if |s| > 1 && IsSpace(s[1]) then rest else [""] + rest)
      else [[s[0]] + rest[0]] + rest[1..]
  }

  /** A space-free string is one piece. */
  lemma {:induction false} SplitWsNoSpace(s: string)
    requires HasNoSpace(s)
    ensures SplitWs(s) == [s]
  {
    if s != [] {
      SplitWsNoSpace(s[1..]);
      assert [s[0]] + s[1..] == s;
    }
  }

  /** A space-free prefix glues onto the first piece. */
  lemma {:induction false} SplitWsPrefix(a: string, rest: string)
    requires HasNoSpace(a)
    ensures SplitWs(a + rest) == [a + SplitWs(rest)[0]] + SplitWs(rest)[1..]
  {
    if a == [] {
      var r := SplitWs(rest);
      assert a + rest == rest;
      assert a + r[0] == r[0];
      assert r == [r[0]] + r[1..];
    } else {
      assert (a + rest)[1..] == a[1..] + rest;
      SplitWsPrefix(a[1..], rest);
      assert [a[0]] + (a[1..] + SplitWs(rest)[0]) == a + SplitWs(rest)[0];
    }
  }

  /** Two space-free words joined by one space split back into those two words. */
  lemma SplitWsTwoWords(a: string, b: string)
    requires HasNoSpace(a) && a != []
    requires HasNoSpace(b) && b != []
    ensures SplitWs(a + " " + b) == [a, b]
  {
    SplitWsNoSpace(b);
    assert (" " + b)[1..] == b;
    assert SplitWs(" " + b) == [""] + [b];
    SplitWsPrefix(a, " " + b);
    assert a + " " + b == a + (" " + b);
    assert a + "" == a;
  }

  /** On a trimmed, non-empty string every piece of the white-space split is a non-empty word. */
  lemma {:induction false} SplitWsWords(s: string)
    requires IsTrimmed(s) && s != []
    ensures forall k :: 0 <= k < |SplitWs(s)| ==> SplitWs(s)[k] != [] && HasNoSpace(SplitWs(s)[k])
  {
    var rest := SplitWs(s[1..]);
    if |s| == 1 {
    } else if IsSpace(s[0]) {
    } else {
      SplitWsWordsAfter(s[1..]);
    }
  }

  /** Helper for SplitWsWords: a string that does not end in white space splits into words, except that a leading run of space yields one empty first piece. */
  lemma {:induction false} SplitWsWordsAfter(s: string)
    requires s != [] && !IsSpace(s[|s| - 1])
    ensures forall k :: 1 <= k < |SplitWs(s)| ==> SplitWs(s)[k] != [] && HasNoSpace(SplitWs(s)[k])
    ensures HasNoSpace(SplitWs(s)[0])
    ensures !IsSpace(s[0]) ==> SplitWs(s)[0] != []
  {
    if |s| > 1 {
      SplitWsWordsAfter(s[1..]);
      var rest := SplitWs(s[1..]);
      if IsSpace(s[0]) {
        if IsSpace(s[1]) {
        } else {
          assert rest[0] != [];
        }
      }
    }
  }
}
