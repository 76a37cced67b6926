/** Shared vocabulary: optional values, the JavaScript string operations the
    dashboard relies on, and the list operations (filter, keyed upsert,
    stable sort, maximum) that every page repeats. */
module Common {

  datatype Option<+T> = None | Some(value: T)

  // ---------------------------------------------------------------------
  // Characters

  predicate IsUpper(c: char) { 'A' <= c <= 'Z' }
  predicate IsLower(c: char) { 'a' <= c <= 'z' }
  predicate IsDigit(c: char) { '0' <= c <= '9' }
  predicate IsAlnum(c: char) { IsUpper(c) || IsLower(c) || IsDigit(c) }

  /** The regular-expression class \w: ASCII letters, digits and underscore. */
  predicate IsWordChar(c: char) { IsAlnum(c) || c == '_' }

  /** ECMAScript WhiteSpace and LineTerminator: what String.prototype.trim
      strips and what the regular-expression class \s matches. */
  predicate IsSpace(c: char) {
    c == ' ' || c == '\t' || c == '\n' || c == '\r'
    || c as int == 0x0B || c as int == 0x0C || c as int == 0xA0
    || c as int == 0x1680 || 0x2000 <= c as int <= 0x200A
    || c as int == 0x2028 || c as int == 0x2029 || c as int == 0x202F
    || c as int == 0x205F || c as int == 0x3000 || c as int == 0xFEFF
  }

  function LowerChar(c: char): char {
    if IsUpper(c) then (c as int + 32) as char else c
  }

  function UpperChar(c: char): char {
    if IsLower(c) then (c as int - 32) as char else c
  }

  /** String.prototype.toLowerCase, on the ASCII letters. */
  function Lower(s: string): string {
    seq(|s|, i requires 0 <= i < |s| => LowerChar(s[i]))
  }

  /** String.prototype.toUpperCase, on the ASCII letters. */
  function Upper(s: string): string {
    seq(|s|, i requires 0 <= i < |s| => UpperChar(s[i]))
  }

  // ---------------------------------------------------------------------
  // Substrings

  /** `sub` occurs in `s` starting at index i. */
  predicate OccursAt(s: string, sub: string, i: int) {
    0 <= i && i + |sub| <= |s| && s[i..i + |sub|] == sub
  }

  /** String.prototype.includes. */
  predicate Contains(s: string, sub: string) {
    exists i :: 0 <= i <= |s| && OccursAt(s, sub, i)
  }

  /** String.prototype.startsWith. */
  predicate StartsWith(s: string, prefix: string) {
    prefix <= s
  }

  /** Lower-casing both sides keeps an occurrence: a case-insensitive search
      finds every literal match. */
  lemma ContainsLower(s: string, sub: string)
    requires Contains(s, sub)
    ensures Contains(Lower(s), Lower(sub))
  {
    var i :| 0 <= i <= |s| && OccursAt(s, sub, i);
    assert Lower(s)[i..i + |sub|] == Lower(sub);
    assert OccursAt(Lower(s), Lower(sub), i);
  }

  function CountChar(s: string, c: char): nat {
    if s == [] then 0 else (if s[0] == c then 1 else 0) + CountChar(s[1..], c)
  }

  lemma CountCharZero(s: string, c: char)
    ensures CountChar(s, c) == 0 <==> c !in s
  {
    if s != [] {
      CountCharZero(s[1..], c);
      assert s == [s[0]] + s[1..];
    }
  }

  // ---------------------------------------------------------------------
  // Trimming

  function TrimStart(s: string): (r: string)
    ensures |r| <= |s|
    ensures r == [] || !IsSpace(r[0])
  {
    if |s| > 0 && IsSpace(s[0]) then TrimStart(s[1..]) else s
  }

  function TrimEnd(s: string): (r: string)
    ensures r <= s
    ensures r == [] || !IsSpace(r[|r| - 1])
  {
    if |s| > 0 && IsSpace(s[|s| - 1]) then TrimEnd(s[..|s| - 1]) else s
  }

  /** No white space at either end. */
  predicate Trimmed(s: string) {
    s == [] || (!IsSpace(s[0]) && !IsSpace(s[|s| - 1]))
  }

  /** `r` is `s` with some white space removed at each end: r is the slice
      s[a..a + |r|] and everything outside it is white space. */
  predicate StripsSpace(s: string, r: string, a: int) {
    0 <= a && a + |r| <= |s| && r == s[a..a + |r|]
    && (forall k :: 0 <= k < a ==> IsSpace(s[k]))
    && (forall k :: a + |r| <= k < |s| ==> IsSpace(s[k]))
  }

  lemma {:induction false} TrimStartStrips(s: string)
    ensures TrimStart(s) == s[|s| - |TrimStart(s)|..]
    ensures forall k :: 0 <= k < |s| - |TrimStart(s)| ==> IsSpace(s[k])
  {
    if |s| > 0 && IsSpace(s[0]) {
      TrimStartStrips(s[1..]);
    }
  }

  lemma {:induction false} TrimEndStrips(s: string)
    ensures forall k :: |TrimEnd(s)| <= k < |s| ==> IsSpace(s[k])
  {
    if |s| > 0 && IsSpace(s[|s| - 1]) {
      TrimEndStrips(s[..|s| - 1]);
    }
  }

  /** String.prototype.trim. */
  function Trim(s: string): (r: string)
    ensures Trimmed(r)
    ensures |r| <= |s|
  {
    TrimEnd(TrimStart(s))
  }

  /** Trimming removes only white space, and all of it at both ends: the
      result is a slice of the input with only white space around it. */
  lemma TrimStrips(s: string)
    ensures Trimmed(Trim(s))
    ensures StripsSpace(s, Trim(s), |s| - |TrimStart(s)|)
  {
    TrimStartStrips(s);
    TrimEndStrips(TrimStart(s));
  }

  /** Trimming an already trimmed string changes nothing. */
  lemma TrimOfTrimmed(s: string)
    requires Trimmed(s)
    ensures Trim(s) == s
  {
  }

  // ---------------------------------------------------------------------
  // Split and join on one separator character

  /** String.prototype.split with a one-character separator: the empty
      string gives one empty part, and n separators give n + 1 parts. */
  function Split(s: string, c: char): (parts: seq<string>)
    ensures |parts| == CountChar(s, c) + 1
    ensures forall i :: 0 <= i < |parts| ==> c !in parts[i]
  {
    if s == [] then [""]
    else
      var rest := Split(s[1..], c);
      if s[0] == c then [""] + rest
      else [[s[0]] + rest[0]] + rest[1..]
  }

  /** Array.prototype.join with a one-character separator. */
  function Join(parts: seq<string>, c: char): string {
    if |parts| == 0 then ""
    else if |parts| == 1 then parts[0]
    else parts[0] + [c] + Join(parts[1..], c)
  }

  lemma {:induction false} SplitNoSeparator(p: string, c: char)
    requires c !in p
    ensures Split(p, c) == [p]
  {
    if p != [] {
      SplitNoSeparator(p[1..], c);
      assert [p[0]] + p[1..] == p;
    }
  }

  lemma {:induction false} SplitAfterPart(p: string, rest: string, c: char)
    requires c !in p
    ensures Split(p + [c] + rest, c) == [p] + Split(rest, c)
  {
    if p == [] {
      assert (p + [c] + rest)[1..] == rest;
    } else {
      SplitAfterPart(p[1..], rest, c);
      assert (p + [c] + rest)[1..] == p[1..] + [c] + rest;
      assert (p + [c] + rest)[0] == p[0];
      assert [p[0]] + p[1..] == p;
    }
  }

  /** Two parts around one separator split back into those two parts. */
  lemma SplitPair(p: string, q: string, c: char)
    requires c !in p && c !in q
    ensures Split(p + [c] + q, c) == [p, q]
  {
    SplitAfterPart(p, q, c);
    SplitNoSeparator(q, c);
  }

  /** Splitting undoes joining when no part holds the separator. */
  lemma {:induction false} SplitJoin(parts: seq<string>, c: char)
    requires |parts| > 0
    requires forall i :: 0 <= i < |parts| ==> c !in parts[i]
    ensures Split(Join(parts, c), c) == parts
  {
    if |parts| == 1 {
      SplitNoSeparator(parts[0], c);
    } else {
      SplitJoin(parts[1..], c);
      SplitAfterPart(parts[0], Join(parts[1..], c), c);
    }
  }

  // ---------------------------------------------------------------------
  // Array.prototype.filter

  function Filter<T>(s: seq<T>, keep: T -> bool): (r: seq<T>)
    ensures |r| <= |s|
  {
    if s == [] then []
    else if keep(s[0]) then [s[0]] + Filter(s[1..], keep)
    else Filter(s[1..], keep)
  }

  /** The filtered list holds exactly the kept elements, each no more often
      than before. */
  lemma {:induction false} FilterMembers<T(!new)>(s: seq<T>, keep: T -> bool)
    ensures forall x :: x in Filter(s, keep) <==> x in s && keep(x)
    ensures multiset(Filter(s, keep)) <= multiset(s)
  {
    if s != [] {
      FilterMembers(s[1..], keep);
      assert s == [s[0]] + s[1..];
    }
  }

  /** Filtering (when `any` holds) and then sorting by `key` keeps exactly
      the kept elements, each as often as before, in key order. */
  lemma FilterThenSort<T(!new)>(s: seq<T>, keep: T -> bool, any: bool, key: T -> int)
    ensures var t := SortByKey(if any then Filter(s, keep) else s, key);
            (forall x :: x in t <==> x in s && (any ==> keep(x)))
            && multiset(t) <= multiset(s)
            && (any ==> multiset(t) == multiset(Filter(s, keep)))
            && (!any ==> multiset(t) == multiset(s))
            && (forall i, j :: 0 <= i < j < |t| ==> key(t[i]) <= key(t[j]))
  {
    var kept := if any then Filter(s, keep) else s;
    var t := SortByKey(kept, key);
    FilterMembers(s, keep);
    assert forall x :: x in t <==> x in multiset(t);
    assert forall x :: x in kept <==> x in multiset(kept);
  }

  /** A filter that keeps everything returns the list unchanged. */
  lemma {:induction false} FilterKeepsAll<T(!new)>(s: seq<T>, keep: T -> bool)
    requires forall i :: 0 <= i < |s| ==> keep(s[i])
    ensures Filter(s, keep) == s
  {
    if s != [] {
      FilterKeepsAll(s[1..], keep);
    }
  }

  // ---------------------------------------------------------------------
  // Keyed upsert: `list.some(x => key(x) === k) ? list.map(replace) : [...list, x]`

  predicate HasKey<T>(s: seq<T>, k: string, key: T -> string) {
    exists i :: 0 <= i < |s| && key(s[i]) == k
  }

  /** No two entries share a key. */
  predicate DistinctKeys<T>(s: seq<T>, key: T -> string) {
    forall i, j :: 0 <= i < j < |s| ==> key(s[i]) != key(s[j])
  }

  /** Replace every entry whose key matches x's key, or append x when none
      does. */
  function Upsert<T>(s: seq<T>, x: T, key: T -> string): (r: seq<T>)
    ensures x in r
    ensures |r| == |s| <==> HasKey(s, key(x), key)
    ensures |r| == |s| || r == s + [x]
    ensures forall i :: 0 <= i < |s| && key(s[i]) != key(x) ==> r[i] == s[i]
    ensures forall i :: 0 <= i < |s| && key(s[i]) == key(x) ==> r[i] == x
  {
    if HasKey(s, key(x), key) then
      var r := seq(|s|, i requires 0 <= i < |s| => if key(s[i]) == key(x) then x else s[i]);
      assert x in r by {
        var i :| 0 <= i < |s| && key(s[i]) == key(x);
        assert r[i] == x;
      }
      r
    else s + [x]
  }

  /** Upserting keeps the keys distinct, and afterwards x is the only entry
      with its key. */
  lemma UpsertKeepsKeysDistinct<T>(s: seq<T>, x: T, key: T -> string)
    requires DistinctKeys(s, key)
    ensures DistinctKeys(Upsert(s, x, key), key)
    ensures forall i :: 0 <= i < |Upsert(s, x, key)| && key(Upsert(s, x, key)[i]) == key(x)
              ==> Upsert(s, x, key)[i] == x
  {
    var r := Upsert(s, x, key);
    if |r| != |s| {
      assert r == s + [x];
      forall i, j | 0 <= i < j < |r| ensures key(r[i]) != key(r[j]) {
        if j == |s| {
          assert !HasKey(s, key(x), key);
          assert key(r[i]) == key(s[i]);
        }
      }
    }
  }

  /** Every entry after an upsert is the new one or an old one with another
      key. */
  lemma UpsertMembers<T>(s: seq<T>, x: T, key: T -> string)
    ensures forall y :: y in Upsert(s, x, key) ==> y == x || (y in s && key(y) != key(x))
  {
    var r := Upsert(s, x, key);
    forall y | y in r ensures y == x || (y in s && key(y) != key(x)) {
      var k :| 0 <= k < |r| && r[k] == y;
      if k < |s| && key(s[k]) != key(x) {
        assert y == s[k];
      }
    }
  }

  /** Upserting two entries with the same key leaves what upserting the
      second alone leaves: the last update wins. */
  lemma UpsertSameKeyTwice<T>(s: seq<T>, x: T, y: T, key: T -> string)
    requires key(x) == key(y)
    ensures Upsert(Upsert(s, x, key), y, key) == Upsert(s, y, key)
  {
    var r1 := Upsert(s, x, key);
    var r2 := Upsert(r1, y, key);
    var r := Upsert(s, y, key);
    assert HasKey(r1, key(y), key) by {
      var i :| 0 <= i < |r1| && r1[i] == x;
    }
    if HasKey(s, key(x), key) {
      assert |r2| == |r|;
      forall i | 0 <= i < |r| ensures r2[i] == r[i] {
      }
    } else {
      assert r1 == s + [x] && r == s + [y];
      forall i | 0 <= i < |r| ensures r2[i] == r[i] {
        if i < |s| {
          assert key(s[i]) != key(x);
        }
      }
    }
  }

  // ---------------------------------------------------------------------
  // Stable sorting with a comparator (Array.prototype.sort is stable)

  /** `le` is total and transitive: a comparator the sort can rely on. */
  ghost predicate TotalPreorder<T(!new)>(le: (T, T) -> bool) {
    (forall a, b :: le(a, b) || le(b, a))
    && (forall a, b, c :: le(a, b) && le(b, c) ==> le(a, c))
  }

  predicate SortedWith<T>(s: seq<T>, le: (T, T) -> bool) {
    forall i, j :: 0 <= i < j < |s| ==> le(s[i], s[j])
  }

  /** Putting in front of a sorted list an element that comes before all of
      it keeps the list sorted. */
  lemma ConsSorted<T>(h: T, t: seq<T>, le: (T, T) -> bool)
    requires SortedWith(t, le)
    requires forall j :: 0 <= j < |t| ==> le(h, t[j])
    ensures SortedWith([h] + t, le)
  {
    var r := [h] + t;
    forall i, j | 0 <= i < j < |r| ensures le(r[i], r[j]) {
      assert r[j] == t[j - 1];
      if i > 0 { assert r[i] == t[i - 1]; }
    }
  }

  lemma {:induction false} FrontBound<T(!new)>(x: T, s: seq<T>, le: (T, T) -> bool)
    requires TotalPreorder(le) && SortedWith(s, le)
    requires s == [] || le(x, s[0])
    ensures forall j :: 0 <= j < |s| ==> le(x, s[j])
  {
    forall j | 0 <= j < |s| ensures le(x, s[j]) {
      if j > 0 { assert le(s[0], s[j]); }
    }
  }

  lemma {:induction false} BehindBound<T(!new)>(x: T, s: seq<T>, t: seq<T>, le: (T, T) -> bool)
    requires TotalPreorder(le) && SortedWith(s, le)
    requires s != [] && !le(x, s[0])
    requires forall y :: y in t <==> y == x || y in s[1..]
    ensures forall j :: 0 <= j < |t| ==> le(s[0], t[j])
  {
    assert le(s[0], x);
    forall j | 0 <= j < |t| ensures le(s[0], t[j]) {
      var y := t[j];
      assert y in t;
      if y != x {
        var k :| 0 <= k < |s[1..]| && s[1..][k] == y;
        assert s[k + 1] == y;
      }
    }
  }

  /** Insert x in front of the first element it does not come after, so that
      x stays ahead of the equal elements that followed it in the input. */
  function Insert<T(!new)>(x: T, s: seq<T>, le: (T, T) -> bool): (r: seq<T>)
    requires TotalPreorder(le) && SortedWith(s, le)
    ensures SortedWith(r, le)
    ensures multiset(r) == multiset(s) + multiset{x}
    ensures forall y :: y in r <==> y == x || y in s
  {
    if s == [] || le(x, s[0]) then
      FrontBound(x, s, le);
      ConsSorted(x, s, le);
      [x] + s
    else
      assert s == [s[0]] + s[1..];
      var t := Insert(x, s[1..], le);
      BehindBound(x, s, t, le);
      ConsSorted(s[0], t, le);
      [s[0]] + t
  }

  /** Insertion sort: sorted by `le`, a permutation of the input, and stable. */
  function SortWith<T(!new)>(s: seq<T>, le: (T, T) -> bool): (r: seq<T>)
    requires TotalPreorder(le)
    ensures SortedWith(r, le)
    ensures multiset(r) == multiset(s)
    ensures |r| == |s|
  {
    if s == [] then []
    else
      assert s == [s[0]] + s[1..];
      Insert(s[0], SortWith(s[1..], le), le)
  }

  /** The element a stable ascending sort puts first: the earliest element
      with the least key. */
  function FirstMinBy<T(==)>(s: seq<T>, key: T -> int): (r: T)
    requires |s| > 0
    ensures forall i :: 0 <= i < |s| ==> key(r) <= key(s[i])
    ensures exists i :: 0 <= i < |s| && s[i] == r && forall j :: 0 <= j < i ==> key(s[j]) > key(r)
  {
    if |s| == 1 then s[0]
    else
      var m := FirstMinBy(s[1..], key);
      assert forall i :: 1 <= i < |s| ==> s[i] == s[1..][i - 1];
      if key(s[0]) <= key(m) then s[0]
      else
        var i :| 0 <= i < |s[1..]| && s[1..][i] == m && forall j :: 0 <= j < i ==> key(s[1..][j]) > key(m);
        assert s[i + 1] == m;
        m
  }

  /** Folding the first two elements into the one with the smaller key (the
      first on a tie) keeps the earliest least element. */
  lemma FirstMinByPair<T>(a: T, u: T, rest: seq<T>, key: T -> int)
    ensures FirstMinBy([a] + ([u] + rest), key) == FirstMinBy([if key(u) < key(a) then u else a] + rest, key)
  {
    var s := [a] + ([u] + rest);
    var c := if key(u) < key(a) then u else a;
    assert s[1..] == [u] + rest;
    if rest != [] {
      assert ([u] + rest)[1..] == rest;
      assert ([c] + rest)[1..] == rest;
    }
  }

  /** The comparator `(a, b) => key(a) - key(b)` on integer keys. */
  function ByKey<T>(key: T -> int): (T, T) -> bool {
    (a: T, b: T) => key(a) <= key(b)
  }

  lemma ByKeyTotal<T(!new)>(key: T -> int)
    ensures TotalPreorder(ByKey(key))
  {
  }

  /** Stable sort by an integer key, ascending. */
  function SortByKey<T(!new)>(s: seq<T>, key: T -> int): (r: seq<T>)
    ensures |r| == |s|
    ensures multiset(r) == multiset(s)
    ensures forall i, j :: 0 <= i < j < |r| ==> key(r[i]) <= key(r[j])
  {
    ByKeyTotal(key);
    SortWith(s, ByKey(key))
  }

  /** Stability at the head: the sort puts the earliest least element first. */
  lemma {:induction false} SortByKeyHead<T(!new)>(s: seq<T>, key: T -> int)
    requires |s| > 0
    ensures SortByKey(s, key)[0] == FirstMinBy(s, key)
  {
    ByKeyTotal(key);
    SortWithHead(s, key);
  }

  lemma {:induction false} SortWithHead<T(!new)>(s: seq<T>, key: T -> int)
    requires |s| > 0 && TotalPreorder(ByKey(key))
    ensures SortWith(s, ByKey(key))[0] == FirstMinBy(s, key)
  {
    var rest := SortWith(s[1..], ByKey(key));
    if |s| > 1 {
      SortWithHead(s[1..], key);
      assert rest[0] == FirstMinBy(s[1..], key);
    }
  }

  // ---------------------------------------------------------------------
  // Code-unit lexicographic order on strings

  /** `a <= b` in code-unit order (a prefix comes first). */
  predicate StrLe(a: string, b: string) {
    a == [] || (b != [] && (a[0] < b[0] || (a[0] == b[0] && StrLe(a[1..], b[1..]))))
  }

  lemma {:induction false} StrLeReflexive(a: string)
    ensures StrLe(a, a)
  {
    if a != [] {
      StrLeReflexive(a[1..]);
    }
  }

  lemma {:induction false} StrLeTotal(a: string, b: string)
    ensures StrLe(a, b) || StrLe(b, a)
  {
    if a != [] && b != [] && a[0] == b[0] {
      StrLeTotal(a[1..], b[1..]);
    }
  }

  lemma {:induction false} StrLeTransitive(a: string, b: string, c: string)
    requires StrLe(a, b) && StrLe(b, c)
    ensures StrLe(a, c)
  {
    if a != [] && b != [] && c != [] && a[0] == b[0] && b[0] == c[0] {
      StrLeTransitive(a[1..], b[1..], c[1..]);
    }
  }

  /** Code-unit order is a total preorder, so it is one of the collations
      `localeCompare` may stand for (the pages take the collation as a
      parameter; see `FxMonitor.SortedByTicker`). */
  lemma CodeUnitCollation()
    ensures TotalPreorder(StrLe)
  {
    forall a, b ensures StrLe(a, b) || StrLe(b, a) {
      StrLeTotal(a, b);
    }
    forall a, b, c | StrLe(a, b) && StrLe(b, c) ensures StrLe(a, c) {
      StrLeTransitive(a, b, c);
    }
  }

  // ---------------------------------------------------------------------
  // Math.max over a non-empty list

  /** `Math.max(...s.map(f))` on a non-empty list of numbers. */
  function MaxBy<T>(s: seq<T>, f: T -> real): (m: real)
    requires |s| > 0
    ensures exists i :: 0 <= i < |s| && f(s[i]) == m
    ensures forall i :: 0 <= i < |s| ==> f(s[i]) <= m
  {
    if |s| == 1 then f(s[0])
    else
      var m := MaxBy(s[1..], f);
      assert forall i :: 1 <= i < |s| ==> s[i] == s[1..][i - 1];
      if f(s[0]) >= m then f(s[0]) else m
  }

  /** Math.ceil. */
  function Ceil(r: real): (n: int)
    ensures n as real >= r && (n - 1) as real < r
  {
    -((-r).Floor)
  }
}
