/**
  * Sequence building blocks the JavaScript sources get from the standard library:
  * the default string order of `Array.prototype.sort`, the sorted duplicate-free
  * array `Array.from(new Set(xs)).sort()`, the insertion-ordered `Array.from(new Set(xs))`,
  * `filter`, and `slice(0, n)`.
  */
module Collections {

  /** A value that may be absent: an optional field, or JavaScript's `null`/`undefined`. */
  datatype Option<T> = None | Some(value: T)

  /** Cutting `a + t` inside `a`. */
  lemma AppendSlices<T>(a: seq<T>, t: seq<T>, e: nat)
    requires e <= |a|
    ensures (a + t)[..e] == a[..e] && (a + t)[e..] == a[e..] + t
  {
  }

  lemma AppendAssoc<T>(a: seq<T>, b: seq<T>, c: seq<T>)
    ensures (a + b) + c == a + (b + c)
  {
  }

  /** What `w + rest` at position `i` says about the positions of `line`. */
  lemma PrefixAt<T>(line: seq<T>, i: nat, w: seq<T>, rest: seq<T>)
    requires i <= |line| && line[i..] == w + rest
    ensures i + |w| <= |line| && line[i..i + |w|] == w && line[i + |w|..] == rest
    ensures forall k :: 0 <= k < |w| ==> line[i + k] == w[k]
  {
    assert line[i..][..|w|] == w;
    assert line[i..][|w|..] == rest;
  }

  /** The first two elements, or all of them when there are fewer. */
  function Take2<T>(s: seq<T>): (r: seq<T>)
    ensures |r| <= 2 && |r| <= |s|
    ensures forall k :: 0 <= k < |r| ==> r[k] == s[k]
  {
    if |s| <= 2 then s else s[..2]
  }

  /** What holds of every element holds of the first two. */
  lemma Take2Preserves<T>(s: seq<T>, p: T -> bool)
    requires forall i :: 0 <= i < |s| ==> p(s[i])
    ensures forall k :: 0 <= k < |Take2(s)| ==> p(Take2(s)[k])
  {
  }

  /** A suffix ends where the whole sequence ends. */
  lemma SuffixLast<T>(a: seq<T>, e: nat)
    requires e < |a|
    ensures a[e..][|a| - e - 1] == a[|a| - 1] && a[e..] != []
  {
  }

  /** Consing onto a concatenation. */
  lemma ConsAppend<T>(x: T, p: seq<T>, q: seq<T>)
    ensures [x] + (p + q) == ([x] + p) + q
  {
  }

  /**
    * Lexicographic order on strings, character by character; the order of
    * JavaScript's default `sort` (which compares code units).
    */
  predicate Less(a: string, b: string)
    decreases |a|
  {
    if a == [] then b != []
    else if b == [] then false
    else if a[0] != b[0] then a[0] < b[0]
    else Less(a[1..], b[1..])
  }

  lemma {:induction false} LessIrreflexive(a: string)
    ensures !Less(a, a)
  {
    if a != [] {
      LessIrreflexive(a[1..]);
    }
  }

  lemma {:induction false} LessTransitive(a: string, b: string, c: string)
    requires Less(a, b) && Less(b, c)
    ensures Less(a, c)
  {
    if a != [] && b != [] && c != [] && a[0] == b[0] && b[0] == c[0] {
      LessTransitive(a[1..], b[1..], c[1..]);
    }
  }

  lemma {:induction false} LessTotal(a: string, b: string)
    requires a != b
    ensures Less(a, b) || Less(b, a)
  {
    if a != [] && b != [] && a[0] == b[0] {
      assert a == [a[0]] + a[1..] && b == [b[0]] + b[1..];
      LessTotal(a[1..], b[1..]);
    }
  }

  lemma LessAsymmetric(a: string, b: string)
    requires Less(a, b)
    ensures !Less(b, a)
  {
    if Less(b, a) {
      LessTransitive(a, b, a);
      LessIrreflexive(a);
    }
  }

  /** Strictly increasing, hence free of duplicates. */
  predicate StrictlySorted(s: seq<string>) {
    forall i, j :: 0 <= i < j < |s| ==> Less(s[i], s[j])
  }

  /** Adds one string to a strictly sorted sequence (a sorted array built from a `Set`). */
  function Insert(s: seq<string>, x: string): (r: seq<string>)
    requires StrictlySorted(s)
    ensures StrictlySorted(r)
    ensures forall y :: y in r <==> y in s || y == x
    ensures x in s ==> r == s
  {
    if s == [] then [x]
    else if x == s[0] then s
    else if Less(x, s[0]) then
      var r := [x] + s;
      assert StrictlySorted(r) by {
        forall i, j | 0 <= i < j < |r| ensures Less(r[i], r[j]) {
          if i == 0 && j > 1 { LessTransitive(x, s[0], s[j - 1]); }
        }
      }
      assert x !in s by {
        forall k | 0 <= k < |s| ensures s[k] != x {
          if k > 0 { LessAsymmetric(s[0], s[k]); }
        }
      }
      r
    else
      var t := Insert(s[1..], x);
      LessTotal(x, s[0]);
      var r := [s[0]] + t;
      assert StrictlySorted(r) by {
        forall j | 0 < j < |r| ensures Less(s[0], r[j]) {
          assert r[j] in t;
        }
      }
      r
  }

  /** Adds every string of `t` to the strictly sorted `s`: a sorted set union. */
  function AddAll(s: seq<string>, t: seq<string>): (r: seq<string>)
    requires StrictlySorted(s)
    ensures StrictlySorted(r)
    ensures forall y :: y in r <==> y in s || y in t
    decreases |t|
  {
    if t == [] then s else AddAll(Insert(s, t[0]), t[1..])
  }

  /** The sorted duplicate-free array of the strings of `t`: `Array.from(new Set(t)).sort()`. */
  function SortedSet(t: seq<string>): (r: seq<string>)
    ensures StrictlySorted(r)
    ensures forall y :: y in r <==> y in t
  {
    AddAll([], t)
  }

  /**
    * A strictly sorted sequence is determined by its elements: whichever way a sorted
    * duplicate-free array is built, it is the same array.
    */
  lemma {:induction false} SortedUnique(a: seq<string>, b: seq<string>)
    requires StrictlySorted(a) && StrictlySorted(b)
    requires forall y :: y in a <==> y in b
    ensures a == b
  {
    if a != [] { assert a[0] in a; }
    if b != [] { assert b[0] in b; }
    if a != [] && b != [] {
      assert a[0] == b[0] by {
        if a[0] != b[0] {
          assert a[0] in a && b[0] in b;
          var i :| 0 <= i < |a| && a[i] == b[0];
          var j :| 0 <= j < |b| && b[j] == a[0];
          assert i > 0 && j > 0;
          LessAsymmetric(a[0], a[i]);
        }
      }
      assert a == [a[0]] + a[1..] && b == [b[0]] + b[1..];
      forall y ensures y in a[1..] <==> y in b[1..] {
        if y in a[1..] {
          var i :| 0 <= i < |a[1..]| && a[1..][i] == y;
          assert a[i + 1] == y;
          assert y != a[0] by { LessIrreflexive(a[0]); }
          assert y in b;
        }
        if y in b[1..] {
          var j :| 0 <= j < |b[1..]| && b[1..][j] == y;
          assert b[j + 1] == y;
          assert y != b[0] by { LessIrreflexive(b[0]); }
          assert y in a;
        }
      }
      SortedUnique(a[1..], b[1..]);
    }
  }

  /** Union of sorted sets is insensitive to the order in which the strings arrive. */
  lemma AddAllCommutes(s: seq<string>, t: seq<string>, u: seq<string>)
    requires StrictlySorted(s)
    ensures AddAll(AddAll(s, t), u) == AddAll(AddAll(s, u), t)
  {
    SortedUnique(AddAll(AddAll(s, t), u), AddAll(AddAll(s, u), t));
  }

  predicate NoDuplicates<T(==)>(s: seq<T>) {
    forall i, j :: 0 <= i < j < |s| ==> s[i] != s[j]
  }

  /** `Array.from(new Set(s))`: the first occurrence of every element, in order. */
  function Dedup<T(==)>(s: seq<T>): (r: seq<T>)
    ensures NoDuplicates(r)
    ensures forall k :: 0 <= k < |r| ==> r[k] in s
    ensures forall k :: 0 <= k < |s| ==> s[k] in r
    ensures |r| <= |s|
  {
    if s == [] then []
    else
      var d := Dedup(s[..|s| - 1]);
      assert forall k :: 0 <= k < |s| - 1 ==> s[k] == s[..|s| - 1][k];
      if s[|s| - 1] in d then d else d + [s[|s| - 1]]
  }

  /** Deduplicating a sequence without duplicates changes nothing. */
  lemma {:induction false} DedupNoDuplicates<T>(s: seq<T>)
    requires NoDuplicates(s)
    ensures Dedup(s) == s
  {
    if s != [] {
      DedupNoDuplicates(s[..|s| - 1]);
    }
  }

  /** What is already in the set keeps its place when more elements are added: insertion order. */
  lemma {:induction false} DedupPrefix<T>(a: seq<T>, b: seq<T>)
    ensures |Dedup(a)| <= |Dedup(a + b)| && Dedup(a + b)[..|Dedup(a)|] == Dedup(a)
    decreases |b|
  {
    if b == [] {
      assert a + b == a;
    } else {
      var ab := a + b[..|b| - 1];
      assert (a + b)[..|a + b| - 1] == ab;
      assert a + b[..|b| - 1] == ab;
      DedupPrefix(a, b[..|b| - 1]);
    }
  }

  /** Some element satisfies `f`: `s.some(f)`, read from the last element back. */
  predicate Any<T>(s: seq<T>, f: T -> bool)
    decreases |s|
  {
    s != [] && (f(s[|s| - 1]) || Any(s[..|s| - 1], f))
  }

  lemma {:induction false} AnyExists<T>(s: seq<T>, f: T -> bool)
    ensures Any(s, f) <==> exists i :: 0 <= i < |s| && f(s[i])
    decreases |s|
  {
    if s != [] {
      var pre := s[..|s| - 1];
      AnyExists(pre, f);
      if exists i :: 0 <= i < |s| && f(s[i]) {
        var i :| 0 <= i < |s| && f(s[i]);
        if i < |s| - 1 {
          assert pre[i] == s[i];
        }
      }
      if exists i :: 0 <= i < |pre| && f(pre[i]) {
        var i :| 0 <= i < |pre| && f(pre[i]);
        assert s[i] == pre[i];
      }
    }
  }

  /** No element before `i` satisfies `f` when none of the prefix does. */
  lemma NoneInPrefix<T>(s: seq<T>, f: T -> bool, i: nat)
    requires i <= |s| && !Any(s[..i], f)
    ensures forall j :: 0 <= j < i ==> !f(s[j])
  {
    AnyExists(s[..i], f);
    forall j | 0 <= j < i ensures !f(s[j]) {
      assert s[..i][j] == s[j];
    }
  }

  /** The value `f` gives on the first suffix of `s`, longest first, where it gives one. */
  function FirstSome<T, M>(s: seq<T>, f: seq<T> -> Option<M>): Option<M>
    decreases |s|
  {
    if s == [] then None else if f(s).Some? then f(s) else FirstSome(s[1..], f)
  }

  lemma TailSuffix<T>(s: seq<T>, j: nat)
    requires 1 <= j <= |s|
    ensures s[1..][j - 1..] == s[j..]
  {
  }

  /** The search finds the leftmost suffix with a value, and finds none exactly when no suffix has one. */
  lemma {:induction false} FirstSomeLeftmost<T, M>(s: seq<T>, f: seq<T> -> Option<M>)
    ensures FirstSome(s, f).None? <==> forall i :: 0 <= i < |s| ==> f(s[i..]).None?
    ensures FirstSome(s, f).Some? ==>
      exists i :: 0 <= i < |s| && f(s[i..]) == FirstSome(s, f) && forall j :: 0 <= j < i ==> f(s[j..]).None?
    decreases |s|
  {
    if s != [] {
      assert s[0..] == s;
      var t := s[1..];
      FirstSomeLeftmost(t, f);
      if f(s).None? {
        if FirstSome(t, f).Some? {
          var i :| 0 <= i < |t| && f(t[i..]) == FirstSome(t, f) && forall j :: 0 <= j < i ==> f(t[j..]).None?;
          forall j | 0 <= j < i + 1 ensures f(s[j..]).None? {
            if j > 0 {
              TailSuffix(s, j);
            }
          }
          TailSuffix(s, i + 1);
        } else {
          forall i | 0 <= i < |s| ensures f(s[i..]).None? {
            if i > 0 {
              TailSuffix(s, i);
            }
          }
        }
        if forall i :: 0 <= i < |s| ==> f(s[i..]).None? {
          forall k | 0 <= k < |t| ensures f(t[k..]).None? {
            TailSuffix(s, k + 1);
          }
        }
      }
    }
  }

  /** `s.filter(f)`. */
  function Keep<T>(s: seq<T>, f: T -> bool): (r: seq<T>)
    ensures |r| <= |s|
    ensures forall k :: 0 <= k < |r| ==> f(r[k])
  {
    if s == [] then []
    else if f(s[0]) then [s[0]] + Keep(s[1..], f)
    else Keep(s[1..], f)
  }

  /** `s.filter(f).map(g)`, in one pass. */
  function KeepMap<T, U>(s: seq<T>, f: T -> bool, g: T -> U): seq<U> {
    if s == [] then []
    else if f(s[0]) then [g(s[0])] + KeepMap(s[1..], f, g)
    else KeepMap(s[1..], f, g)
  }

  /** Filtering and mapping in one pass maps each kept element, in order. */
  lemma {:induction false} KeepMapIndex<T, U>(s: seq<T>, f: T -> bool, g: T -> U)
    ensures |KeepMap(s, f, g)| == |Keep(s, f)|
    ensures forall k :: 0 <= k < |Keep(s, f)| ==> KeepMap(s, f, g)[k] == g(Keep(s, f)[k])
  {
    if s != [] {
      KeepMapIndex(s[1..], f, g);
      if f(s[0]) {
        assert Keep(s, f) == [s[0]] + Keep(s[1..], f);
      }
    }
  }

  /** `a` is `b` with some elements left out, the rest in their original order. */
  predicate IsSubsequence<T(==)>(a: seq<T>, b: seq<T>)
    decreases |b|
  {
    if a == [] then true
    else if b == [] then false
    else if a[0] == b[0] then IsSubsequence(a[1..], b[1..])
    else IsSubsequence(a, b[1..])
  }

  lemma {:induction false} KeepIsSubsequence<T>(s: seq<T>, f: T -> bool)
    ensures IsSubsequence(Keep(s, f), s)
  {
    if s != [] {
      KeepIsSubsequence(s[1..], f);
    }
  }

  /** Exactly the elements the predicate accepts stay. */
  lemma {:induction false} KeepMembers<T>(s: seq<T>, f: T -> bool)
    ensures forall y :: y in Keep(s, f) <==> y in s && f(y)
  {
    if s != [] {
      KeepMembers(s[1..], f);
    }
  }

  /** What holds of every element still holds of every kept element, and the kept elements pass the filter. */
  lemma KeepPreserves<T>(s: seq<T>, f: T -> bool, p: T -> bool)
    requires forall i :: 0 <= i < |s| ==> p(s[i])
    ensures forall k :: 0 <= k < |Keep(s, f)| ==> p(Keep(s, f)[k]) && f(Keep(s, f)[k])
  {
    KeepMembers(s, f);
  }

  /** Filtering a suffix, one element at a time. */
  lemma KeepFrom<T>(s: seq<T>, f: T -> bool, i: nat)
    requires i < |s|
    ensures Keep(s[i..], f) == if f(s[i]) then [s[i]] + Keep(s[i + 1..], f) else Keep(s[i + 1..], f)
  {
    assert s[i..][1..] == s[i + 1..];
  }

  /** Two filters in a row are one filter by the conjunction. */
  lemma {:induction false} KeepKeep<T>(s: seq<T>, f: T -> bool, g: T -> bool, h: T -> bool)
    requires forall x :: h(x) == (f(x) && g(x))
    ensures Keep(Keep(s, f), g) == Keep(s, h)
  {
    if s != [] {
      KeepKeep(s[1..], f, g, h);
    }
  }

  /** A filter every element passes changes nothing. */
  lemma {:induction false} KeepAll<T>(s: seq<T>, f: T -> bool)
    requires forall k :: 0 <= k < |s| ==> f(s[k])
    ensures Keep(s, f) == s
  {
    if s != [] {
      KeepAll(s[1..], f);
    }
  }

  /** Filters by predicates that agree everywhere give the same result. */
  lemma {:induction false} KeepSame<T>(s: seq<T>, f: T -> bool, g: T -> bool)
    requires forall x :: f(x) == g(x)
    ensures Keep(s, f) == Keep(s, g)
  {
    if s != [] {
      KeepSame(s[1..], f, g);
    }
  }

  /** `s.find(f)`: the first element that satisfies `f`, if any. */
  function First<T>(s: seq<T>, f: T -> bool): (r: Option<T>)
    ensures r.Some? ==> r.value in s && f(r.value)
  {
    if s == [] then None
    else if f(s[0]) then Some(s[0])
    else First(s[1..], f)
  }

  /** `find` returns the element at the first position that satisfies `f`, and nothing only when no element does. */
  lemma {:induction false} FirstIsFirst<T>(s: seq<T>, f: T -> bool)
    ensures First(s, f).None? <==> forall k :: 0 <= k < |s| ==> !f(s[k])
    ensures First(s, f).Some? ==>
      exists i :: 0 <= i < |s| && s[i] == First(s, f).value && forall j :: 0 <= j < i ==> !f(s[j])
  {
    if s != [] && !f(s[0]) {
      var t := s[1..];
      FirstIsFirst(t, f);
      assert forall k :: 1 <= k < |s| ==> s[k] == t[k - 1];
      if First(t, f).Some? {
        var i :| 0 <= i < |t| && t[i] == First(t, f).value && forall j :: 0 <= j < i ==> !f(t[j]);
        assert s[i + 1] == t[i];
        assert forall j :: 1 <= j < i + 1 ==> !f(s[j]) by {
          forall j | 1 <= j < i + 1 ensures !f(s[j]) {
            assert s[j] == t[j - 1];
          }
        }
      } else {
        forall k | 0 <= k < |s| ensures !f(s[k]) {
          if k > 0 {
            assert s[k] == t[k - 1];
          }
        }
      }
    } else if s != [] {
      assert s[0] == First(s, f).value;
    }
  }

  /** A prefix of a subsequence is a subsequence. */
  lemma {:induction false} SubsequencePrefix<T>(a: seq<T>, b: seq<T>, n: nat)
    requires IsSubsequence(a, b) && n <= |a|
    ensures IsSubsequence(a[..n], b)
    decreases |b|
  {
    if n > 0 {
      if a[0] == b[0] {
        SubsequencePrefix(a[1..], b[1..], n - 1);
        assert a[..n][1..] == a[1..][..n - 1];
      } else {
        SubsequencePrefix(a, b[1..], n);
      }
    }
  }

  /** Every element of a subsequence comes from the sequence. */
  lemma {:induction false} SubsequenceMembers<T>(a: seq<T>, b: seq<T>)
    requires IsSubsequence(a, b)
    ensures forall x :: x in a ==> x in b
    decreases |b|
  {
    if a != [] {
      if a[0] == b[0] {
        SubsequenceMembers(a[1..], b[1..]);
        assert forall x :: x in a ==> x == a[0] || x in a[1..];
      } else {
        SubsequenceMembers(a, b[1..]);
      }
    }
  }

  /** The end index of JavaScript's `slice(0, n)` on an array of length `len`. */
  function SliceEnd(len: nat, n: int): (e: nat)
    ensures e <= len
    ensures n >= 0 ==> e == if n < len then n else len
    ensures n < 0 ==> e == if len + n > 0 then len + n else 0
  {
    if n >= 0 then (if n < len then n else len)
    else if len + n > 0 then len + n else 0
  }
}
