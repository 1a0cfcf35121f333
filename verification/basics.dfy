/** Bytes, text and the two sequence notions every component shares. */
module Basics {

  type Byte = b: int | 0 <= b < 0x100
  type Bytes = seq<Byte>

  /** A Python `str` is a sequence of code points, surrogates included. */
  type Code = c: int | 0 <= c < 0x11_0000
  type Text = seq<Code>

  datatype Option<+T> = None | Some(value: T)

  /** Text of a string literal. */
  function T(s: string): (t: Text)
    ensures |t| == |s| && forall i :: 0 <= i < |s| ==> t[i] == s[i] as int
  {
    seq(|s|, i requires 0 <= i < |s| => s[i] as int)
  }

  predicate IsAscii(s: string) {
    forall i :: 0 <= i < |s| ==> s[i] as int < 0x80
  }

  /** Bytes of an ASCII literal. */
  function A(s: string): (b: Bytes)
    requires IsAscii(s)
    ensures |b| == |s| && forall i :: 0 <= i < |s| ==> b[i] == s[i] as int
  {
    seq(|s|, i requires 0 <= i < |s| => s[i] as int)
  }

  predicate IsDigit(c: int) {
    48 <= c < 58
  }

  /** `str.isspace` on one code point. */
  predicate IsWhite(c: Code) {
    || 0x09 <= c < 0x0E || 0x1C <= c < 0x21 || c == 0x85 || c == 0xA0 || c == 0x1680
    || 0x2000 <= c < 0x200B || c == 0x2028 || c == 0x2029 || c == 0x202F || c == 0x205F || c == 0x3000
  }

  /** ASCII lower case; other characters stay. */
  function LowerCase(c: int): int {
    if 65 <= c < 91 then c + 32 else c
  }

  /** A lower-case hexadecimal digit. */
  function HexDigit(n: nat): (c: Code)
    requires n < 16
    ensures IsDigit(c) || 97 <= c < 103
  {
    if n < 10 then 48 + n else 87 + n
  }

  predicate StartsWith(s: seq<int>, prefix: seq<int>) {
    |prefix| <= |s| && s[..|prefix|] == prefix
  }

  /** The chunks read from a stream before an empty one reports its end. */
  function UntilEnd(chunks: seq<Bytes>): seq<Bytes> {
    if chunks == [] || chunks[0] == [] then [] else [chunks[0]] + UntilEnd(chunks[1..])
  }

  function Flatten<X>(parts: seq<seq<X>>): seq<X> {
    if parts == [] then [] else parts[0] + Flatten(parts[1..])
  }

  /** Parts with a separator between them. */
  function Joined(sep: Text, parts: seq<Text>): Text {
    if parts == [] then [] else if |parts| == 1 then parts[0] else parts[0] + sep + Joined(sep, parts[1..])
  }

  lemma Assoc<X>(a: seq<X>, b: seq<X>, c: seq<X>)
    ensures a + b + c == a + (b + c)
  {}

  lemma Assoc4<X>(a: seq<X>, b: seq<X>, c: seq<X>, d: seq<X>)
    ensures a + b + c + d == a + (b + (c + d))
    ensures a + b + c + d == a + (b + c + d)
  {}

  lemma Assoc5<X>(a: seq<X>, b: seq<X>, c: seq<X>, d: seq<X>, e: seq<X>)
    ensures a + b + c + d + e == a + (b + (c + d + e))
  {}

  lemma DropHead<X>(x: X, s: seq<X>)
    ensures ([x] + s)[1..] == s
  {}

  predicate OccursAt(haystack: seq<int>, i: nat, needle: seq<int>) {
    i + |needle| <= |haystack| && haystack[i..i + |needle|] == needle
  }

  /** `needle in haystack` for strings and byte strings, and Rust's `windows(n).any(..)`. */
  predicate Contains(haystack: seq<int>, needle: seq<int>) {
    exists i :: 0 <= i <= |haystack| && OccursAt(haystack, i, needle)
  }

  ghost predicate Distinct<X>(xs: seq<X>) {
    forall i, j :: 0 <= i < j < |xs| ==> xs[i] != xs[j]
  }

  ghost function Elements<X>(xs: seq<X>): set<X> {
    set x | x in xs
  }
}

/** Lexicographic order: Rust's `Ord` for byte strings, Python's for `str`. */
module LexOrder {

  predicate LexLess(a: seq<int>, b: seq<int>) {
    b != [] && (a == [] || a[0] < b[0] || (a[0] == b[0] && LexLess(a[1..], b[1..])))
  }

  lemma {:induction false} LexIrreflexive(a: seq<int>)
    ensures !LexLess(a, a)
  {
    if a != [] { LexIrreflexive(a[1..]); }
  }

  lemma {:induction false} LexTransitive(a: seq<int>, b: seq<int>, c: seq<int>)
    requires LexLess(a, b) && LexLess(b, c)
    ensures LexLess(a, c)
  {
    if a != [] && a[0] == b[0] == c[0] { LexTransitive(a[1..], b[1..], c[1..]); }
  }

  lemma {:induction false} LexTotal(a: seq<int>, b: seq<int>)
    ensures a == b || LexLess(a, b) || LexLess(b, a)
  {
    if a != [] && b != [] && a[0] == b[0] {
      LexTotal(a[1..], b[1..]);
      assert a == [a[0]] + a[1..] && b == [b[0]] + b[1..];
    }
  }

  lemma LexAsymmetric(a: seq<int>, b: seq<int>)
    requires LexLess(a, b)
    ensures a != b && !LexLess(b, a)
  {}

  /** The first difference decides. */
  lemma {:induction false} LexFirstDifference(a: seq<int>, b: seq<int>, k: nat)
    requires k < |a| && k < |b| && a[..k] == b[..k] && a[k] < b[k]
    ensures LexLess(a, b)
  {
    if k > 0 {
      assert a[0] == a[..k][0] == b[..k][0] == b[0];
      assert a[1..][..k-1] == a[..k][1..] && b[1..][..k-1] == b[..k][1..];
      LexFirstDifference(a[1..], b[1..], k - 1);
    }
  }

  /** A common prefix does not take part in the comparison. */
  lemma {:induction false} LexPrefix(p: seq<int>, a: seq<int>, b: seq<int>)
    ensures LexLess(p + a, p + b) <==> LexLess(a, b)
  {
    if p == [] {
      assert p + a == a && p + b == b;
    } else {
      assert (p + a)[1..] == p[1..] + a && (p + b)[1..] == p[1..] + b;
      LexPrefix(p[1..], a, b);
    }
  }

  /** Index of the first position at which `a`, the smaller, differs from or ends before `b`. */
  lemma {:induction false} FirstDifference(a: seq<int>, b: seq<int>) returns (k: nat)
    requires LexLess(a, b)
    ensures k <= |a| && k < |b| && a[..k] == b[..k] && (k < |a| ==> a[k] < b[k])
  {
    if a == [] || a[0] < b[0] {
      k := 0;
    } else {
      k := FirstDifference(a[1..], b[1..]);
      assert a[..k+1] == [a[0]] + a[1..][..k] && b[..k+1] == [b[0]] + b[1..][..k];
      k := k + 1;
    }
  }

  /** `a` comes before `b`: up to a place they agree, and there `a` ends or has the smaller element. */
  ghost predicate Before(a: seq<int>, b: seq<int>) {
    exists k: nat :: k <= |a| && k < |b| && a[..k] == b[..k] && (k < |a| ==> a[k] < b[k])
  }

  lemma LexMeaning(a: seq<int>, b: seq<int>)
    ensures LexLess(a, b) <==> Before(a, b)
  {
    if LexLess(a, b) {
      var k := FirstDifference(a, b);
    } else if k: nat :| k <= |a| && k < |b| && a[..k] == b[..k] && (k < |a| ==> a[k] < b[k]) {
      if k < |a| {
        LexFirstDifference(a, b, k);
      } else {
        LexPrefix(a, [], b[k..]);
        assert a + [] == a && a + b[k..] == b;
      }
    }
  }
}

/**
 * The library sort of the sources (`sorted`, `list.sort`, `sort_by`), as a stable
 * insertion sort. `SortedUnique` says that the choice of algorithm is immaterial.
 */
module Sorting {
  import opened Basics

  function Insert<T>(less: (T, T) -> bool, x: T, s: seq<T>): seq<T> {
    if s == [] || !less(s[0], x) then [x] + s else [s[0]] + Insert(less, x, s[1..])
  }

  function Sort<T>(less: (T, T) -> bool, s: seq<T>): seq<T> {
    if s == [] then [] else Insert(less, s[0], Sort(less, s[1..]))
  }

  /** `less` is a strict total order on `dom`. */
  ghost predicate StrictOrder<T>(less: (T, T) -> bool, dom: set<T>) {
    && (forall x | x in dom :: !less(x, x))
    && (forall x, y, z | x in dom && y in dom && z in dom :: less(x, y) && less(y, z) ==> less(x, z))
    && (forall x, y | x in dom && y in dom :: x == y || less(x, y) || less(y, x))
  }

  ghost predicate Within<T>(s: seq<T>, dom: set<T>) {
    forall i :: 0 <= i < |s| ==> s[i] in dom
  }

  ghost predicate Increasing<T>(less: (T, T) -> bool, s: seq<T>) {
    forall i, j :: 0 <= i < j < |s| ==> less(s[i], s[j])
  }

  ghost predicate Transitive<T(!new)>(less: (T, T) -> bool) {
    forall x, y, z :: less(x, y) && less(y, z) ==> less(x, z)
  }

  /** Neighbours in order put every pair in order. */
  lemma {:induction false} AdjacentIncreasing<T(!new)>(less: (T, T) -> bool, s: seq<T>)
    requires Transitive(less) && forall i :: 0 < i < |s| ==> less(s[i-1], s[i])
    ensures Increasing(less, s)
  {
    if |s| > 1 {
      var n := |s| - 1;
      var init := s[..n];
      AdjacentIncreasing(less, init);
      forall i | 0 <= i < n ensures less(s[i], s[n]) {
        if i < n - 1 { assert less(init[i], init[n-1]) && less(s[n-1], s[n]); }
      }
      forall i, j | 0 <= i < j < |s| ensures less(s[i], s[j]) {
        if j < n { assert less(init[i], init[j]); }
      }
    }
  }

  lemma {:induction false} InsertMultiset<T(!new)>(less: (T, T) -> bool, x: T, s: seq<T>)
    ensures multiset(Insert(less, x, s)) == multiset(s) + multiset{x}
  {
    if s != [] && less(s[0], x) {
      InsertMultiset(less, x, s[1..]);
      assert s == [s[0]] + s[1..];
    }
  }

  lemma {:induction false} SortMultiset<T(!new)>(less: (T, T) -> bool, s: seq<T>)
    ensures multiset(Sort(less, s)) == multiset(s)
  {
    if s != [] {
      SortMultiset(less, s[1..]);
      InsertMultiset(less, s[0], Sort(less, s[1..]));
      assert s == [s[0]] + s[1..];
    }
  }

  lemma SameElements<T(!new)>(s: seq<T>, t: seq<T>)
    requires multiset(s) == multiset(t)
    ensures |s| == |t| && forall x :: x in s <==> x in t
  {
    assert |multiset(s)| == |s| && |multiset(t)| == |t|;
    forall x ensures x in s <==> x in t {
      assert x in s <==> x in multiset(s);
      assert x in t <==> x in multiset(t);
    }
  }

  lemma SortElements<T(!new)>(less: (T, T) -> bool, s: seq<T>)
    ensures |Sort(less, s)| == |s|
    ensures forall x :: x in Sort(less, s) <==> x in s
  {
    SortMultiset(less, s);
    SameElements(Sort(less, s), s);
  }

  lemma {:induction false} InsertIncreasing<T(!new)>(less: (T, T) -> bool, dom: set<T>, x: T, s: seq<T>)
    requires StrictOrder(less, dom) && Within(s, dom) && x in dom
    requires Increasing(less, s) && x !in s
    ensures Increasing(less, Insert(less, x, s))
  {
    if s != [] && less(s[0], x) {
      InsertIncreasing(less, dom, x, s[1..]);
      var r := Insert(less, x, s[1..]);
      InsertMultiset(less, x, s[1..]);
      forall j | 0 <= j < |r| ensures less(s[0], r[j]) {
        assert r[j] in multiset(r);
        if r[j] != x { assert r[j] in multiset(s[1..]); }
      }
    } else if s != [] {
      assert s[0] in dom && s[0] in s && less(x, s[0]);
      forall j | 0 <= j < |s| ensures less(x, s[j]) {
        assert s[j] in dom;
      }
    }
  }

  /** Distinct elements come out strictly increasing. */
  lemma {:induction false} SortIncreasing<T(!new)>(less: (T, T) -> bool, dom: set<T>, s: seq<T>)
    requires StrictOrder(less, dom) && Within(s, dom) && Distinct(s)
    ensures Increasing(less, Sort(less, s))
  {
    if s != [] {
      var t := s[1..];
      SortIncreasing(less, dom, t);
      SortElements(less, t);
      var r := Sort(less, t);
      forall i | 0 <= i < |r| ensures r[i] in dom { assert r[i] in r && r[i] in t; }
      assert s[0] !in t;
      InsertIncreasing(less, dom, s[0], r);
    }
  }

  lemma HeadIsLeast<T(!new)>(less: (T, T) -> bool, dom: set<T>, s: seq<T>, t: seq<T>)
    requires StrictOrder(less, dom) && Within(s, dom) && Within(t, dom)
    requires Increasing(less, s) && Increasing(less, t)
    requires s != [] && t != [] && s[0] in t && t[0] in s
    ensures s[0] == t[0]
  {}

  /** A list cannot be increasing for two orders that disagree on two of its elements. */
  lemma OrdersClash<T(!new)>(less: (T, T) -> bool, more: (T, T) -> bool, dom: set<T>, s: seq<T>, t: seq<T>, x: T, y: T)
    requires StrictOrder(less, dom) && StrictOrder(more, dom) && Within(s, dom) && Within(t, dom)
    requires Increasing(less, s) && Increasing(more, t)
    requires x in s && y in s && less(x, y) && more(y, x)
    ensures s != t
  {}

  lemma TailElements<T(!new)>(less: (T, T) -> bool, dom: set<T>, s: seq<T>, x: T)
    requires StrictOrder(less, dom) && Within(s, dom) && Increasing(less, s) && s != []
    ensures x in s[1..] <==> x in s && x != s[0]
  {}

  /** Any two strictly increasing listings of the same elements are equal. */
  lemma {:induction false} SortedUnique<T(!new)>(less: (T, T) -> bool, dom: set<T>, s: seq<T>, t: seq<T>)
    requires StrictOrder(less, dom) && Within(s, dom) && Within(t, dom)
    requires Increasing(less, s) && Increasing(less, t)
    requires forall x :: x in s <==> x in t
    ensures s == t
    decreases |s|
  {
    assert t != [] ==> t[0] in t;
    if s != [] {
      assert s[0] in t;
      assert t[0] in s;
      HeadIsLeast(less, dom, s, t);
      forall x ensures x in s[1..] <==> x in t[1..] {
        TailElements(less, dom, s, x);
        TailElements(less, dom, t, x);
      }
      SortedUnique(less, dom, s[1..], t[1..]);
      assert s == [s[0]] + s[1..] && t == [t[0]] + t[1..];
    }
  }

  /** The sorted listing depends on the elements only, not on their order of arrival. */
  lemma SortPermutation<T(!new)>(less: (T, T) -> bool, dom: set<T>, s: seq<T>, t: seq<T>)
    requires StrictOrder(less, dom) && Within(s, dom)
    requires Distinct(s) && Distinct(t) && forall x :: x in s <==> x in t
    ensures Sort(less, s) == Sort(less, t)
  {
    forall i | 0 <= i < |t| ensures t[i] in dom { assert t[i] in s; }
    SortIncreasing(less, dom, s);
    SortIncreasing(less, dom, t);
    SortElements(less, s);
    SortElements(less, t);
    var a, b := Sort(less, s), Sort(less, t);
    forall i | 0 <= i < |a| ensures a[i] in dom { assert a[i] in a && a[i] in s; }
    forall i | 0 <= i < |b| ensures b[i] in dom { assert b[i] in b && b[i] in t; }
    SortedUnique(less, dom, a, b);
  }

  lemma {:induction false} CountOfDistinct<T(!new)>(s: seq<T>, x: T)
    requires Distinct(s)
    ensures multiset(s)[x] == if x in s then 1 else 0
  {
    if s != [] {
      assert s == [s[0]] + s[1..];
      CountOfDistinct(s[1..], x);
    }
  }

  lemma CountOfRepeated<T(!new)>(s: seq<T>, i: nat, j: nat)
    requires i < j < |s| && s[i] == s[j]
    ensures multiset(s)[s[i]] >= 2
  {
    assert s == s[..i] + [s[i]] + s[i+1..j] + [s[j]] + s[j+1..];
  }

  /** A permutation of distinct elements is a distinct listing of the same elements. */
  lemma PermutationExactly<T(!new)>(s: seq<T>, t: seq<T>)
    requires Distinct(t)
    ensures multiset(s) == multiset(t) <==> Distinct(s) && forall x :: x in s <==> x in t
  {
    if Distinct(s) && forall x :: x in s <==> x in t {
      forall x ensures multiset(s)[x] == multiset(t)[x] {
        CountOfDistinct(s, x);
        CountOfDistinct(t, x);
      }
    }
    if multiset(s) == multiset(t) {
      forall i, j | 0 <= i < j < |s| ensures s[i] != s[j] {
        if s[i] == s[j] {
          CountOfRepeated(s, i, j);
          CountOfDistinct(t, s[i]);
        }
      }
      SameElements(s, t);
    }
  }

  /** Distinct known elements are all the known ones exactly when none is missing. */
  lemma NoneMissing<T(!new)>(s: seq<T>, known: seq<T>, seen: set<T>)
    requires Distinct(known) && Distinct(s) && seen == Elements(s)
    requires forall i :: 0 <= i < |s| ==> s[i] in known
    ensures multiset(s) == multiset(known) <==> forall x :: x in known ==> x in seen
  {
    PermutationExactly(s, known);
    assert forall x :: x in seen <==> x in s;
  }

  lemma AppendDistinct<T(!new)>(s: seq<T>, i: nat)
    requires i < |s| && Distinct(s[..i])
    ensures Distinct(s[..i+1]) <==> s[i] !in Elements(s[..i])
    ensures Elements(s[..i+1]) == Elements(s[..i]) + {s[i]}
    ensures s[i] in Elements(s[..i]) ==> !Distinct(s)
  {}

  lemma RemoveAt<T(!new)>(s: seq<T>, i: nat)
    requires i < |s|
    ensures multiset(s) == multiset(s[..i] + s[i+1..]) + multiset{s[i]}
  {
    assert s == s[..i] + [s[i]] + s[i+1..];
  }

  /** The first element, wherever a permutation has it. */
  lemma FindFirst<T(!new)>(s: seq<T>, t: seq<T>) returns (i: nat)
    requires s != [] && multiset(s) == multiset(t)
    ensures i < |t| && t[i] == s[0] && multiset(s[1..]) == multiset(t[..i] + t[i+1..])
  {
    assert s[0] in multiset(s) && s[0] in multiset(t);
    i :| 0 <= i < |t| && t[i] == s[0];
    Without(t, i);
    Without(s, 0);
    assert s[..0] + s[1..] == s[1..];
  }

  lemma Without<T(!new)>(s: seq<T>, i: nat)
    requires i < |s|
    ensures multiset(s[..i] + s[i+1..]) == multiset(s) - multiset{s[i]}
  {
    RemoveAt(s, i);
  }

  /** Orders that agree on the elements sort alike. */
  lemma {:induction false} SortAgree<T(!new)>(less: (T, T) -> bool, more: (T, T) -> bool, s: seq<T>)
    requires forall x, y | x in s && y in s :: less(x, y) == more(x, y)
    ensures Sort(less, s) == Sort(more, s)
  {
    if s != [] {
      var t := s[1..];
      SortAgree(less, more, t);
      SortElements(less, t);
      var r := Sort(less, t);
      assert s[0] in s && forall y :: y in r ==> y in t;
      assert forall y :: y in t ==> y in s;
      InsertAgree(less, more, s[0], r);
    }
  }

  lemma {:induction false} InsertAgree<T(!new)>(less: (T, T) -> bool, more: (T, T) -> bool, x: T, s: seq<T>)
    requires forall y | y in s :: less(y, x) == more(y, x)
    ensures Insert(less, x, s) == Insert(more, x, s)
  {
    if s != [] {
      assert s[0] in s;
      InsertAgree(less, more, x, s[1..]);
    }
  }
}

/** `sorted(set(...))` of strings: the one strictly increasing listing of a finite set. */
module TextSets {
  import opened Basics
  import opened LexOrder
  import opened Sorting

  function ByText(): (Text, Text) -> bool {
    (a: Text, b: Text) => LexLess(a, b)
  }

  predicate StrictlySorted(ts: seq<Text>) {
    forall i, j :: 0 <= i < j < |ts| ==> LexLess(ts[i], ts[j])
  }

  lemma TextOrder(dom: set<Text>)
    ensures StrictOrder(ByText(), dom)
  {
    var less := ByText();
    forall x: Text ensures !less(x, x) { LexIrreflexive(x); }
    forall x: Text, y: Text, z: Text | less(x, y) && less(y, z) ensures less(x, z) { LexTransitive(x, y, z); }
    forall x: Text, y: Text ensures x == y || less(x, y) || less(y, x) { LexTotal(x, y); }
  }

  lemma TextOrderTransitive()
    ensures Transitive(ByText())
  {
    forall x: Text, y: Text, z: Text | ByText()(x, y) && ByText()(y, z) ensures ByText()(x, z) { LexTransitive(x, y, z); }
  }

  lemma ListingUnique(a: seq<Text>, b: seq<Text>)
    requires StrictlySorted(a) && StrictlySorted(b) && Elements(a) == Elements(b)
    ensures a == b
  {
    TextOrder(Elements(a));
    assert forall x :: x in a <==> x in Elements(a);
    assert forall x :: x in b <==> x in Elements(b);
    SortedUnique(ByText(), Elements(a), a, b);
  }

  lemma {:induction false} ListingExists(s: set<Text>) returns (r: seq<Text>)
    ensures StrictlySorted(r) && Elements(r) == s
    decreases |s|
  {
    if s == {} {
      r := [];
    } else {
      var x :| x in s;
      var rest := ListingExists(s - {x});
      r := Add(x, s - {x}, rest);
      assert s == s - {x} + {x};
    }
  }

  lemma Add(x: Text, s: set<Text>, rest: seq<Text>) returns (r: seq<Text>)
    requires StrictlySorted(rest) && Elements(rest) == s && x !in s
    ensures r == Insert(ByText(), x, rest) && StrictlySorted(r) && Elements(r) == s + {x}
  {
    r := Insert(ByText(), x, rest);
    TextOrder(s + {x});
    forall i | 0 <= i < |rest| ensures rest[i] in s + {x} { assert rest[i] in Elements(rest); }
    InsertIncreasing(ByText(), s + {x}, x, rest);
    InsertMultiset(ByText(), x, rest);
    forall y ensures y in r <==> y in s + {x} {
      assert y in r <==> y in multiset(r);
      assert y in rest <==> y in multiset(rest);
      assert y in rest <==> y in Elements(rest);
    }
    forall i, j | 0 <= i < j < |r| ensures LexLess(r[i], r[j]) { assert ByText()(r[i], r[j]); }
  }

  lemma SomeListing(s: set<Text>)
    ensures exists r :: StrictlySorted(r) && Elements(r) == s
  {
    var r := ListingExists(s);
  }

  ghost function Listing(s: set<Text>): (r: seq<Text>)
    ensures StrictlySorted(r) && Elements(r) == s
  {
    SomeListing(s);
    var r :| StrictlySorted(r) && Elements(r) == s;
    r
  }

  /** `sorted(s)`. */
  method SortedSet(s: set<Text>) returns (r: seq<Text>)
    ensures r == Listing(s)
  {
    r := [];
    var todo := s;
    while todo != {}
      invariant todo <= s
      invariant StrictlySorted(r) && Elements(r) == s - todo
      decreases |todo|
    {
      var x :| x in todo;
      ghost var w := Add(x, s - todo, r);
      r := Insert(ByText(), x, r);
      todo := todo - {x};
      assert s - todo == s - (todo + {x}) + {x};
    }
    ListingUnique(r, Listing(s));
  }
}

/** Letters and digits, written out. */
module Alphabets {
  import opened Basics

  const DIGITS := T("0123456789")
  const LOWERS := T("abcdefghijklmnopqrstuvwxyz")
  const UPPERS := T("ABCDEFGHIJKLMNOPQRSTUVWXYZ")
  const LOWER_HEX := T("0123456789abcdef")

  lemma Digits(c: Code)
    ensures c in DIGITS <==> IsDigit(c)
    ensures c in LOWER_HEX <==> IsDigit(c) || 97 <= c < 103
  {
    if IsDigit(c) { assert DIGITS[c - 48] == c && LOWER_HEX[c - 48] == c; }
    if 97 <= c < 103 { assert LOWER_HEX[c - 87] == c; }
  }

  lemma Lowers(c: Code)
    ensures c in LOWERS <==> 97 <= c < 123
  {
    if 97 <= c < 123 { assert LOWERS[c - 97] == c; }
  }

  lemma Uppers(c: Code)
    ensures c in UPPERS <==> 65 <= c < 91
  {
    if 65 <= c < 91 { assert UPPERS[c - 65] == c; }
  }

  /** White space, character by character. */
  lemma WhiteLaw(c: Code)
    ensures IsWhite(c) <==>
      c in T("\t\n\r ") || c in [
        0x0B, 0x0C, 0x1C, 0x1D, 0x1E, 0x1F, 0x85, 0xA0, 0x1680, 0x2000, 0x2001, 0x2002, 0x2003, 0x2004, 0x2005,
        0x2006, 0x2007, 0x2008, 0x2009, 0x200A, 0x2028, 0x2029, 0x202F, 0x205F, 0x3000]
  {
    assert T("\t\n\r ") == [0x09, 0x0A, 0x0D, 0x20];
  }
}
