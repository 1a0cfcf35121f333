/**
 * JSON values restricted to integers, with the objects of both languages: a Python
 * `dict` remembers insertion order, so an object is a sequence of members.
 */
module JsonValue {
  import opened Basics
  import opened LexOrder
  import opened Sorting
  import opened Utf8

  datatype Member = Member(key: Text, value: JSON)

  datatype JSON =
    | Null
    | Bool(b: bool)
    | Int(n: int)
    | Str(s: Text)
    | Arr(items: seq<JSON>)
    | Obj(members: seq<Member>)

  ghost predicate DistinctKeys(ms: seq<Member>) {
    forall i, j :: 0 <= i < j < |ms| ==> ms[i].key != ms[j].key
  }

  /** Every object is a dictionary: no key twice. */
  ghost predicate Dict(v: JSON) {
    match v
    case Arr(xs) => forall i :: 0 <= i < |xs| ==> Dict(xs[i])
    case Obj(ms) => DistinctKeys(ms) && forall i :: 0 <= i < |ms| ==> Dict(ms[i].value)
    case _ => true
  }

  /** `_validate_canonical_value`: no string or key holds a surrogate. */
  predicate Encodables(v: JSON) {
    match v
    case Str(s) => Encodable(s)
    case Arr(xs) => forall i :: 0 <= i < |xs| ==> Encodables(xs[i])
    case Obj(ms) => forall i :: 0 <= i < |ms| ==> Encodable(ms[i].key) && Encodables(ms[i].value)
    case _ => true
  }

  ghost predicate Valid(v: JSON) {
    Dict(v) && Encodables(v)
  }

  ghost predicate HasKey(ms: seq<Member>, k: Text) {
    exists i :: 0 <= i < |ms| && ms[i].key == k
  }

  /** Equality of JSON data: arrays position by position, objects key by key. */
  ghost predicate SameData(v: JSON, w: JSON) {
    match v
    case Arr(xs) =>
      w.Arr? && |w.items| == |xs| && forall i :: 0 <= i < |xs| ==> SameData(xs[i], w.items[i])
    case Obj(ms) =>
      && w.Obj?
      && (forall k :: HasKey(ms, k) <==> HasKey(w.members, k))
      && (forall i, j | 0 <= i < |ms| && 0 <= j < |w.members| && ms[i].key == w.members[j].key ::
            SameData(ms[i].value, w.members[j].value))
    case _ => v == w
  }

  // ----------------------------------------------------- recursive key order

  datatype KeyOrder = CodePoints | Utf8Bytes

  predicate KeyLess(o: KeyOrder, a: Text, b: Text) {
    match o
    case CodePoints => LexLess(a, b)
    case Utf8Bytes => LexLess(Encode(a), Encode(b))
  }

  function ByKey(o: KeyOrder): (Member, Member) -> bool {
    (m: Member, n: Member) => KeyLess(o, m.key, n.key)
  }

  /** The value with the keys of every object sorted. */
  function SortKeys(o: KeyOrder, v: JSON): JSON {
    match v
    case Arr(xs) => Arr(seq(|xs|, i requires 0 <= i < |xs| => SortKeys(o, xs[i])))
    case Obj(ms) => Obj(Sort(ByKey(o), SortValues(o, ms)))
    case _ => v
  }

  function SortValues(o: KeyOrder, ms: seq<Member>): (r: seq<Member>)
    ensures |r| == |ms|
    ensures forall i :: 0 <= i < |ms| ==> r[i] == Member(ms[i].key, SortKeys(o, ms[i].value))
  {
    seq(|ms|, i requires 0 <= i < |ms| => Member(ms[i].key, SortKeys(o, ms[i].value)))
  }

  function Normal(v: JSON): JSON {
    SortKeys(CodePoints, v)
  }

  /** Sorting by UTF-8 bytes and sorting by code points give the same value, at every depth. */
  lemma {:induction false} OrdersAgree(v: JSON)
    ensures SortKeys(Utf8Bytes, v) == SortKeys(CodePoints, v)
  {
    match v
    case Arr(xs) =>
      forall i | 0 <= i < |xs| ensures SortKeys(Utf8Bytes, xs[i]) == SortKeys(CodePoints, xs[i]) {
        OrdersAgree(xs[i]);
      }
      assert SortKeys(Utf8Bytes, v).items == SortKeys(CodePoints, v).items;
    case Obj(ms) =>
      forall i | 0 <= i < |ms|
        ensures SortKeys(Utf8Bytes, ms[i].value) == SortKeys(CodePoints, ms[i].value)
      {
        OrdersAgree(ms[i].value);
      }
      var r := SortValues(CodePoints, ms);
      assert SortValues(Utf8Bytes, ms) == r;
      forall x, y ensures ByKey(Utf8Bytes)(x, y) == ByKey(CodePoints)(x, y) {
        EncodePreservesOrder(x.key, y.key);
      }
      SortAgree(ByKey(Utf8Bytes), ByKey(CodePoints), r);
    case _ =>
  }

  lemma KeysStrictOrder(ms: seq<Member>)
    requires DistinctKeys(ms)
    ensures StrictOrder(ByKey(CodePoints), Elements(ms)) && Distinct(ms)
    ensures Within(ms, Elements(ms))
  {
    var less := ByKey(CodePoints);
    forall x ensures !less(x, x) { LexIrreflexive(x.key); }
    forall x, y, z | less(x, y) && less(y, z) ensures less(x, z) { LexTransitive(x.key, y.key, z.key); }
    forall x, y | x in Elements(ms) && y in Elements(ms) ensures x == y || less(x, y) || less(y, x) {
      LexTotal(x.key, y.key);
    }
  }

  /** Sorting permutes the members: keys stay distinct and each keeps its (sorted) value. */
  lemma SortedMembers(ms: seq<Member>)
    requires DistinctKeys(ms)
    ensures var a, r := SortValues(CodePoints, ms), Sort(ByKey(CodePoints), SortValues(CodePoints, ms));
      && |r| == |ms| && DistinctKeys(a) && DistinctKeys(r) && Increasing(ByKey(CodePoints), r)
      && forall m :: m in r <==> m in a
  {
    var a := SortValues(CodePoints, ms);
    var less := ByKey(CodePoints);
    KeysStrictOrder(a);
    SortIncreasing(less, Elements(a), a);
    SortElements(less, a);
    var r := Sort(less, a);
    forall i, j | 0 <= i < j < |r| ensures r[i].key != r[j].key {
      assert less(r[i], r[j]);
      LexIrreflexive(r[i].key);
    }
  }

  lemma {:induction false} NormalIsDict(v: JSON)
    requires Dict(v)
    ensures Dict(Normal(v))
  {
    match v
    case Arr(xs) =>
      forall i | 0 <= i < |xs| ensures Dict(Normal(xs[i])) { NormalIsDict(xs[i]); }
    case Obj(ms) =>
      SortedMembers(ms);
      var a, r := SortValues(CodePoints, ms), Normal(v).members;
      forall i | 0 <= i < |r| ensures Dict(r[i].value) {
        assert r[i] in r;
        var j :| 0 <= j < |a| && a[j] == r[i];
        NormalIsDict(ms[j].value);
      }
    case _ =>
  }

  lemma {:induction false} NormalIsEncodable(v: JSON)
    requires Valid(v)
    ensures Encodables(Normal(v))
  {
    match v
    case Arr(xs) =>
      forall i | 0 <= i < |xs| ensures Encodables(Normal(xs[i])) { NormalIsEncodable(xs[i]); }
    case Obj(ms) =>
      SortedMembers(ms);
      var a, r := SortValues(CodePoints, ms), Normal(v).members;
      forall i | 0 <= i < |r| ensures Encodable(r[i].key) && Encodables(r[i].value) {
        assert r[i] in r;
        var j :| 0 <= j < |a| && a[j] == r[i];
        NormalIsEncodable(ms[j].value);
      }
    case _ =>
  }

  // ------------------------------------------------- normal forms are exact

  /** Two dictionaries carry the same data exactly when their sorted forms coincide. */
  lemma {:induction false} NormalExact(v: JSON, w: JSON)
    requires Dict(v) && Dict(w)
    ensures Normal(v) == Normal(w) <==> SameData(v, w)
  {
    match v
    case Arr(xs) =>
      if w.Arr? && |w.items| == |xs| {
        forall i | 0 <= i < |xs| ensures Normal(xs[i]) == Normal(w.items[i]) <==> SameData(xs[i], w.items[i]) {
          NormalExact(xs[i], w.items[i]);
        }
        var a, b := Normal(v).items, Normal(w).items;
        if a == b {
          forall i | 0 <= i < |xs| ensures SameData(xs[i], w.items[i]) {
            assert a[i] == b[i];
          }
        }
      } else if w.Arr? {
        assert |Normal(v).items| != |Normal(w).items|;
      }
    case Obj(ms) =>
      if w.Obj? {
        var ns := w.members;
        forall i, j | 0 <= i < |ms| && 0 <= j < |ns|
          ensures Normal(ms[i].value) == Normal(ns[j].value) <==> SameData(ms[i].value, ns[j].value)
        {
          NormalExact(ms[i].value, ns[j].value);
        }
        var a, b := SortValues(CodePoints, ms), SortValues(CodePoints, ns);
        SortedMembers(ms);
        SortedMembers(ns);
        if Normal(v) == Normal(w) {
          assert forall m :: m in a <==> m in b;
          SameElementsSameData(ms, ns);
        }
        if SameData(v, w) {
          SameDataSameElements(ms, ns);
          KeysStrictOrder(a);
          KeysStrictOrder(b);
          SortPermutation(ByKey(CodePoints), Elements(a), a, b);
        }
      }
    case _ =>
  }

  lemma SameElementsSameData(ms: seq<Member>, ns: seq<Member>)
    requires DistinctKeys(ms) && DistinctKeys(ns)
    requires forall m :: m in SortValues(CodePoints, ms) <==> m in SortValues(CodePoints, ns)
    ensures forall k :: HasKey(ms, k) <==> HasKey(ns, k)
    ensures forall i, j | 0 <= i < |ms| && 0 <= j < |ns| && ms[i].key == ns[j].key ::
      Normal(ms[i].value) == Normal(ns[j].value)
  {
    hide SortKeys, Distinct;
    var a, b := SortValues(CodePoints, ms), SortValues(CodePoints, ns);
    forall i | 0 <= i < |ms| ensures HasKey(ns, ms[i].key) {
      assert a[i] in a;
      var j :| 0 <= j < |b| && b[j] == a[i];
      assert ns[j].key == ms[i].key;
    }
    forall j | 0 <= j < |ns| ensures HasKey(ms, ns[j].key) {
      assert b[j] in b;
      var i :| 0 <= i < |a| && a[i] == b[j];
      assert ms[i].key == ns[j].key;
    }
    forall i, j | 0 <= i < |ms| && 0 <= j < |ns| && ms[i].key == ns[j].key
      ensures Normal(ms[i].value) == Normal(ns[j].value)
    {
      assert a[i] in a;
      var l :| 0 <= l < |b| && b[l] == a[i];
      assert ns[l].key == ns[j].key;
      assert l == j;
    }
  }

  lemma SameDataSameElements(ms: seq<Member>, ns: seq<Member>)
    requires forall k :: HasKey(ms, k) <==> HasKey(ns, k)
    requires forall i, j | 0 <= i < |ms| && 0 <= j < |ns| && ms[i].key == ns[j].key ::
      Normal(ms[i].value) == Normal(ns[j].value)
    ensures forall m :: m in SortValues(CodePoints, ms) <==> m in SortValues(CodePoints, ns)
  {
    var a, b := SortValues(CodePoints, ms), SortValues(CodePoints, ns);
    forall i | 0 <= i < |a| ensures a[i] in b {
      assert HasKey(ms, ms[i].key);
      var j :| 0 <= j < |ns| && ns[j].key == ms[i].key;
      assert b[j] == a[i];
    }
    forall j | 0 <= j < |b| ensures b[j] in a {
      assert HasKey(ns, ns[j].key);
      var i :| 0 <= i < |ms| && ms[i].key == ns[j].key;
      assert a[i] == b[j];
    }
  }
}
