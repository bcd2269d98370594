/**
 The two canonical printers: `canonicalJson`, which sorts the whole value and prints it, and
 `stableJson`, which sorts each object as the printer reaches it; the reference notion of sameness both
 are meant to decide; and `fieldChanges`, which compares records with one of them.
 */
module CanonicalJson {
  import opened JsonText

  // --- Key order ----------------------------------------------------------------

  /** `Array.prototype.sort` on strings: by code units, a prefix first. */
  predicate KeyLess(a: Text, b: Text) {
    |b| > 0 && (|a| == 0 || a[0] < b[0] || (a[0] == b[0] && KeyLess(a[1..], b[1..])))
  }

  lemma KeyLessTotal(a: Text, b: Text)
    ensures a == b || KeyLess(a, b) || KeyLess(b, a)
    ensures !(KeyLess(a, b) && KeyLess(b, a)) && !KeyLess(a, a)
  {
    if |a| > 0 && |b| > 0 && a[0] == b[0] {
      KeyLessTotal(a[1..], b[1..]);
      assert a == [a[0]] + a[1..] && b == [b[0]] + b[1..];
    } else if |a| > 0 {
      KeyLessIrreflexive(a);
    }
  }

  lemma KeyLessIrreflexive(a: Text)
    ensures !KeyLess(a, a)
  {
  }

  lemma {:induction false} KeyLessTransitive(a: Text, b: Text, c: Text)
    requires KeyLess(a, b) && KeyLess(b, c)
    ensures KeyLess(a, c)
  {
    if |a| > 0 && a[0] == b[0] == c[0] { KeyLessTransitive(a[1..], b[1..], c[1..]); }
  }

  function InsertBy<V>(less: (Text, Text) -> bool, m: Member<V>, ms: seq<Member<V>>): seq<Member<V>> {
    if |ms| == 0 then [m]
    else if less(ms[0].key, m.key) then [ms[0]] + InsertBy(less, m, ms[1..])
    else [m] + ms
  }

  /** `Object.keys(record).sort()`, keeping each key's value beside it. */
  function SortMembers<V>(ms: seq<Member<V>>): seq<Member<V>> {
    if |ms| == 0 then [] else InsertBy(KeyLess, ms[0], SortMembers(ms[1..]))
  }

  // --- Property order of a new object ---------------------------------------------

  /** The array index a key denotes, if it is one: such properties come first, in numeric order. */
  function IndexOf(key: Text): (r: (bool, nat)) {
    if |key| == 0 || (|key| > 1 && key[0] == 0x30) || exists i :: 0 <= i < |key| && !Digit(key[i]) then (false, 0)
    else var n := DigitsValue(key); (n < 0xffff_ffff, n)
  }

  function DigitValue(u: Unit): nat { if Digit(u) then u - 0x30 else 0 }

  function DigitsValue(key: Text): nat
    requires forall i :: 0 <= i < |key| ==> Digit(key[i])
  {
    if |key| == 0 then 0 else DigitsValue(key[..|key| - 1]) * 10 + DigitValue(key[|key| - 1])
  }

  predicate IndexLess(a: Text, b: Text) { IndexOf(a).1 < IndexOf(b).1 }

  function IndexMembers<V>(ms: seq<Member<V>>): seq<Member<V>> {
    if |ms| == 0 then []
    else if IndexOf(ms[0].key).0 then InsertBy(IndexLess, ms[0], IndexMembers(ms[1..]))
    else IndexMembers(ms[1..])
  }

  function NamedMembers<V>(ms: seq<Member<V>>): seq<Member<V>> {
    if |ms| == 0 then []
    else (if IndexOf(ms[0].key).0 then [] else [ms[0]]) + NamedMembers(ms[1..])
  }

  /** `Object.fromEntries` on distinct keys: array indices ascending, then the rest as given. */
  function FromEntries<V>(ms: seq<Member<V>>): seq<Member<V>> { IndexMembers(ms) + NamedMembers(ms) }

  /** The members of a rebuilt object, in the order its keys are then enumerated. */
  function Rebuilt<V>(ms: seq<Member<V>>): (r: seq<Member<V>>)
    ensures multiset(r) == multiset(ms)
  {
    SortKeeps(ms);
    FromEntriesKeeps(SortMembers(ms));
    FromEntries(SortMembers(ms))
  }

  lemma {:induction false} InsertKeeps<V>(less: (Text, Text) -> bool, m: Member<V>, ms: seq<Member<V>>)
    ensures multiset(InsertBy(less, m, ms)) == multiset([m] + ms)
  {
    if |ms| > 0 {
      InsertKeeps(less, m, ms[1..]);
      assert ms == [ms[0]] + ms[1..];
    }
  }

  lemma {:induction false} SortKeeps<V>(ms: seq<Member<V>>)
    ensures multiset(SortMembers(ms)) == multiset(ms)
  {
    if |ms| > 0 {
      SortKeeps(ms[1..]);
      InsertKeeps(KeyLess, ms[0], SortMembers(ms[1..]));
      assert ms == [ms[0]] + ms[1..];
    }
  }

  lemma {:induction false} FromEntriesKeeps<V>(ms: seq<Member<V>>)
    ensures multiset(FromEntries(ms)) == multiset(ms)
  {
    if |ms| > 0 {
      FromEntriesKeeps(ms[1..]);
      InsertKeeps(IndexLess, ms[0], IndexMembers(ms[1..]));
      assert ms == [ms[0]] + ms[1..];
    }
  }

  // --- Sorting looks at keys only ---------------------------------------------------

  lemma {:induction false} MapInsert<A, B>(less: (Text, Text) -> bool, f: A -> B, m: Member<A>, ms: seq<Member<A>>)
    ensures MapValues(f, InsertBy(less, m, ms)) == InsertBy(less, Member(m.key, f(m.value)), MapValues(f, ms))
  {
    if |ms| > 0 {
      MapInsert(less, f, m, ms[1..]);
      assert MapValues(f, ms)[1..] == MapValues(f, ms[1..]);
    }
  }

  lemma {:induction false} MapSort<A, B>(f: A -> B, ms: seq<Member<A>>)
    ensures MapValues(f, SortMembers(ms)) == SortMembers(MapValues(f, ms))
  {
    if |ms| > 0 {
      MapSort(f, ms[1..]);
      MapInsert(KeyLess, f, ms[0], SortMembers(ms[1..]));
      assert MapValues(f, ms)[1..] == MapValues(f, ms[1..]);
    }
  }

  lemma {:induction false} MapIndexMembers<A, B>(f: A -> B, ms: seq<Member<A>>)
    ensures MapValues(f, IndexMembers(ms)) == IndexMembers(MapValues(f, ms))
  {
    if |ms| > 0 {
      MapIndexMembers(f, ms[1..]);
      MapInsert(IndexLess, f, ms[0], IndexMembers(ms[1..]));
      assert MapValues(f, ms)[1..] == MapValues(f, ms[1..]);
    }
  }

  lemma {:induction false} MapNamedMembers<A, B>(f: A -> B, ms: seq<Member<A>>)
    ensures MapValues(f, NamedMembers(ms)) == NamedMembers(MapValues(f, ms))
  {
    if |ms| > 0 {
      MapNamedMembers(f, ms[1..]);
      assert MapValues(f, ms)[1..] == MapValues(f, ms[1..]);
    }
  }

  lemma MapRebuilt<A, B>(f: A -> B, ms: seq<Member<A>>)
    ensures MapValues(f, Rebuilt(ms)) == Rebuilt(MapValues(f, ms))
  {
    var s := SortMembers(ms);
    MapSort(f, ms);
    MapIndexMembers(f, s);
    MapNamedMembers(f, s);
    MapConcat(f, IndexMembers(s), NamedMembers(s));
  }

  lemma MapConcat<A, B>(f: A -> B, a: seq<Member<A>>, b: seq<Member<A>>)
    ensures MapValues(f, a + b) == MapValues(f, a) + MapValues(f, b)
  {
  }

  // --- Members in order are determined by the set of members ---------------------------

  ghost predicate Chain<V>(less: (Text, Text) -> bool, ms: seq<Member<V>>) {
    forall i, j :: 0 <= i < j < |ms| ==> less(ms[i].key, ms[j].key)
  }

  ghost predicate Transitive(less: (Text, Text) -> bool) {
    forall a: Text, b: Text, c: Text :: less(a, b) && less(b, c) ==> less(a, c)
  }

  lemma InInserted<V>(less: (Text, Text) -> bool, m: Member<V>, ms: seq<Member<V>>, x: Member<V>)
    ensures x in InsertBy(less, m, ms) <==> x == m || x in ms
  {
    InsertKeeps(less, m, ms);
    assert x in InsertBy(less, m, ms) <==> x in multiset(InsertBy(less, m, ms));
    assert x in multiset([m] + ms) <==> x in [m] + ms;
  }

  lemma ConsChain<V>(less: (Text, Text) -> bool, m: Member<V>, ms: seq<Member<V>>)
    requires Chain(less, ms) && forall x :: x in ms ==> less(m.key, x.key)
    ensures Chain(less, [m] + ms)
  {
  }

  lemma {:induction false} InsertChain<V>(less: (Text, Text) -> bool, m: Member<V>, ms: seq<Member<V>>)
    requires Transitive(less) && Chain(less, ms)
    requires forall x :: x in ms ==> less(x.key, m.key) || less(m.key, x.key)
    ensures Chain(less, InsertBy(less, m, ms))
  {
    if |ms| > 0 {
      var rest := ms[1..];
      forall x | x in rest ensures less(ms[0].key, x.key) {
        var k :| 0 <= k < |rest| && rest[k] == x;
        assert ms[k + 1] == x;
      }
      if less(ms[0].key, m.key) {
        InsertChain(less, m, rest);
        forall x | x in InsertBy(less, m, rest) ensures less(ms[0].key, x.key) { InInserted(less, m, rest, x); }
        ConsChain(less, ms[0], InsertBy(less, m, rest));
      } else {
        assert ms == [ms[0]] + rest;
        ConsChain(less, m, ms);
      }
    }
  }

  ghost predicate Ascending<V>(ms: seq<Member<V>>) { Chain(KeyLess, ms) }

  lemma KeyLessIsTransitive()
    ensures Transitive(KeyLess)
  {
    forall a: Text, b: Text, c: Text | KeyLess(a, b) && KeyLess(b, c) ensures KeyLess(a, c) {
      KeyLessTransitive(a, b, c);
    }
  }

  lemma InsertAscending<V>(m: Member<V>, ms: seq<Member<V>>)
    requires Ascending(ms) && forall i :: 0 <= i < |ms| ==> ms[i].key != m.key
    ensures Ascending(InsertBy(KeyLess, m, ms))
  {
    KeyLessIsTransitive();
    forall x | x in ms ensures KeyLess(x.key, m.key) || KeyLess(m.key, x.key) { KeyLessTotal(x.key, m.key); }
    InsertChain(KeyLess, m, ms);
  }

  lemma {:induction false} SortAscending<V>(ms: seq<Member<V>>)
    requires DistinctKeys(ms)
    ensures Ascending(SortMembers(ms))
  {
    if |ms| > 0 {
      SortAscending(ms[1..]);
      SortKeeps(ms[1..]);
      var r := SortMembers(ms[1..]);
      forall i | 0 <= i < |r| ensures r[i].key != ms[0].key {
        assert r[i] in multiset(ms[1..]);
      }
      InsertAscending(ms[0], r);
    }
  }

  lemma {:induction false} AscendingUnique<V>(a: seq<Member<V>>, b: seq<Member<V>>)
    requires Ascending(a) && Ascending(b) && forall m :: m in a <==> m in b
    ensures a == b
  {
    assert |a| > 0 ==> a[0] in b;
    assert |b| > 0 ==> b[0] in a;
    if |a| > 0 {
      HeadsAgree(a, b);
      forall m ensures m in a[1..] <==> m in b[1..] {
        InTail(a, m);
        InTail(b, m);
      }
      AscendingUnique(a[1..], b[1..]);
      assert a == [a[0]] + a[1..] && b == [b[0]] + b[1..];
    }
  }

  lemma InTail<V>(a: seq<Member<V>>, m: Member<V>)
    requires Ascending(a) && |a| > 0
    ensures m in a[1..] <==> m in a && m != a[0]
  {
    forall j | 0 < j < |a| ensures a[j] != a[0] {
      KeyLessTotal(a[0].key, a[j].key);
    }
    assert a == [a[0]] + a[1..];
  }

  lemma HeadsAgree<V>(a: seq<Member<V>>, b: seq<Member<V>>)
    requires Ascending(a) && Ascending(b) && |a| > 0 && |b| > 0 && forall m :: m in a <==> m in b
    ensures a[0] == b[0]
  {
    assert a[0] in b && b[0] in a;
    var i :| 0 <= i < |b| && b[i] == a[0];
    var j :| 0 <= j < |a| && a[j] == b[0];
    KeyLessTotal(a[0].key, b[0].key);
  }

  /** Objects with the same members, in any order, are rebuilt the same. */
  lemma SameMembersSameRebuilt<V>(a: seq<Member<V>>, b: seq<Member<V>>)
    requires DistinctKeys(a) && DistinctKeys(b) && forall m :: m in a <==> m in b
    ensures Rebuilt(a) == Rebuilt(b)
  {
    SortAscending(a);
    SortAscending(b);
    SortKeeps(a);
    SortKeeps(b);
    forall m ensures m in SortMembers(a) <==> m in SortMembers(b) {
      assert (m in multiset(a) <==> m in a) && (m in multiset(b) <==> m in b);
      assert m in SortMembers(a) <==> m in multiset(SortMembers(a));
      assert m in SortMembers(b) <==> m in multiset(SortMembers(b));
    }
    AscendingUnique(SortMembers(a), SortMembers(b));
  }

  // --- The printers -----------------------------------------------------------------

  function SortValue(j: Json): Json {
    match j
    case Arr(items) => Arr(seq(|items|, i requires 0 <= i < |items| => SortValue(items[i])))
    case Obj(ms) =>
      var s := SortMembers(ms);
      SortKeeps(ms);
      Obj(FromEntries(seq(|s|, i requires 0 <= i < |s| =>
        assert s[i] in multiset(ms);
        Member(s[i].key, SortValue(s[i].value)))))
    case _ => j
  }

  function Canonical(j: Json): Text { Print(SortValue(j)) }

  /** The replacer hands the printer an object with sorted keys; members are replaced in their turn. */
  function Stable(j: Json): Text {
    match j
    case Arr(items) => Brackets(seq(|items|, i requires 0 <= i < |items| => Stable(items[i])))
    case Obj(ms) =>
      var r := Rebuilt(ms);
      Braces(seq(|r|, i requires 0 <= i < |r| =>
        assert r[i] in multiset(ms);
        Member(r[i].key, Stable(r[i].value))))
    case _ => Print(j)
  }

  lemma SortValueUnfolds(j: Json)
    ensures j.Obj? ==> SortValue(j) == Obj(Rebuilt(MapValues(SortValue, j.members)))
    ensures j.Arr? ==> SortValue(j).Arr? && |SortValue(j).items| == |j.items| &&
                       forall i :: 0 <= i < |j.items| ==> SortValue(j).items[i] == SortValue(j.items[i])
  {
    if j.Obj? {
      var s := SortMembers(j.members);
      assert MapValues(SortValue, s) == seq(|s|, i requires 0 <= i < |s| => Member(s[i].key, SortValue(s[i].value)));
      assert SortValue(j) == Obj(FromEntries(MapValues(SortValue, s)));
      MapSort(SortValue, j.members);
    }
  }

  // --- Sameness ---------------------------------------------------------------------

  ghost function Keys<V>(ms: seq<Member<V>>): set<Text> { set i | 0 <= i < |ms| :: ms[i].key }

  ghost function Get<V>(ms: seq<Member<V>>, key: Text): (v: V)
    requires key in Keys(ms)
    ensures Member(key, v) in ms
  {
    var i :| 0 <= i < |ms| && ms[i].key == key;
    assert ms[i] == Member(key, ms[i].value);
    ms[i].value
  }

  lemma GetIs<V>(ms: seq<Member<V>>, i: nat)
    requires DistinctKeys(ms) && i < |ms|
    ensures ms[i].key in Keys(ms) && Get(ms, ms[i].key) == ms[i].value
  {
    assert ms[i].key in Keys(ms);
  }

  /** Equal up to the order of object members, at every depth: the same keys, each with the same value. */
  ghost predicate Same(a: Json, b: Json) {
    match (a, b)
    case (Arr(xs), Arr(ys)) => |xs| == |ys| && forall i :: 0 <= i < |xs| ==> Same(xs[i], ys[i])
    case (Obj(ms), Obj(ns)) =>
      && Keys(ms) == Keys(ns)
      && forall i :: 0 <= i < |ms| && ms[i].key in Keys(ns) ==> Same(ms[i].value, Get(ns, ms[i].key))
    case (Arr(_), _) => false
    case (Obj(_), _) => false
    case _ => a == b
  }

  lemma SortKeepsParsed(j: Json)
    requires Parsed(j)
    ensures Parsed(SortValue(j)) && (Finite(j) ==> Finite(SortValue(j)))
  {
    SortValueUnfolds(j);
    match j
    case Arr(items) =>
      forall i | 0 <= i < |items| ensures Parsed(SortValue(items[i])) &&
        (Finite(items[i]) ==> Finite(SortValue(items[i]))) {
        SortKeepsParsed(items[i]);
      }
    case Obj(ms) =>
      forall i | 0 <= i < |ms|
        ensures Parsed(SortValue(ms[i].value)) && (Finite(ms[i].value) ==> Finite(SortValue(ms[i].value)))
      {
        SortKeepsParsed(ms[i].value);
      }
      RebuiltKeepsParsed(MapValues(SortValue, ms));
    case _ =>
  }

  lemma RebuiltKeepsParsed(vs: seq<Member<Json>>)
    requires Parsed(Obj(vs))
    ensures Parsed(Obj(Rebuilt(vs))) && (Finite(Obj(vs)) ==> Finite(Obj(Rebuilt(vs))))
  {
    var r := Rebuilt(vs);
    PermutedKeysDistinct(vs, r);
    forall i | 0 <= i < |r| ensures r[i] in vs { assert r[i] in multiset(vs); }
  }

  lemma {:induction false} PermutedKeysDistinct<V>(a: seq<Member<V>>, b: seq<Member<V>>)
    requires DistinctKeys(a) && multiset(a) == multiset(b)
    ensures DistinctKeys(b)
  {
    forall i, j | 0 <= i < j < |b| ensures b[i].key != b[j].key {
      assert b[i] in multiset(a) && b[j] in multiset(a);
      if b[i] == b[j] {
        assert b == b[..i] + [b[i]] + b[i + 1..j] + [b[j]] + b[j + 1..];
        assert multiset(b)[b[i]] >= 2;
        Once(a, b[i]);
      }
    }
  }

  lemma {:induction false} Once<V>(a: seq<Member<V>>, m: Member<V>)
    requires DistinctKeys(a)
    ensures multiset(a)[m] <= 1
  {
    if |a| > 0 {
      Once(a[1..], m);
      assert a == [a[0]] + a[1..];
      if m == a[0] { assert m !in a[1..]; }
    }
  }

  /** Sorting makes same values equal, and nothing else. */
  lemma {:induction false} SortDecidesSame(a: Json, b: Json)
    requires Parsed(a) && Parsed(b)
    ensures SortValue(a) == SortValue(b) <==> Same(a, b)
    decreases a
  {
    SortValueUnfolds(a);
    SortValueUnfolds(b);
    match (a, b)
    case (Arr(xs), Arr(ys)) =>
      if |xs| == |ys| {
        forall i | 0 <= i < |xs| ensures SortValue(xs[i]) == SortValue(ys[i]) <==> Same(xs[i], ys[i]) {
          SortDecidesSame(xs[i], ys[i]);
        }
        assert SortValue(a) == SortValue(b) <==> forall i :: 0 <= i < |xs| ==> SortValue(xs[i]) == SortValue(ys[i]);
      }
    case (Obj(ms), Obj(ns)) =>
      forall i, k | 0 <= i < |ms| && 0 <= k < |ns|
        ensures SortValue(ms[i].value) == SortValue(ns[k].value) <==> Same(ms[i].value, ns[k].value)
      {
        SortDecidesSame(ms[i].value, ns[k].value);
      }
      ObjectsDecideSame(ms, ns);
    case _ =>
  }

  ghost predicate ValuesDecide(ms: seq<Member<Json>>, ns: seq<Member<Json>>) {
    forall i, k :: 0 <= i < |ms| && 0 <= k < |ns| ==>
      (SortValue(ms[i].value) == SortValue(ns[k].value) <==> Same(ms[i].value, ns[k].value))
  }

  lemma ObjectsDecideSame(ms: seq<Member<Json>>, ns: seq<Member<Json>>)
    requires DistinctKeys(ms) && DistinctKeys(ns) && ValuesDecide(ms, ns)
    ensures Rebuilt(MapValues(SortValue, ms)) == Rebuilt(MapValues(SortValue, ns)) <==> Same(Obj(ms), Obj(ns))
  {
    if Rebuilt(MapValues(SortValue, ms)) == Rebuilt(MapValues(SortValue, ns)) { RebuiltSame(ms, ns); }
    if Same(Obj(ms), Obj(ns)) { SameRebuilt(ms, ns); }
  }

  /** Equal multisets of mapped members: each member of one side has its counterpart on the other. */
  lemma Counterpart(ms: seq<Member<Json>>, ns: seq<Member<Json>>, i: nat)
    requires multiset(MapValues(SortValue, ms)) == multiset(MapValues(SortValue, ns)) && DistinctKeys(ns) && i < |ms|
    ensures ms[i].key in Keys(ns) && SortValue(Get(ns, ms[i].key)) == SortValue(ms[i].value)
    ensures exists k :: 0 <= k < |ns| && ns[k] == Member(ms[i].key, Get(ns, ms[i].key))
  {
    var vs, ws := MapValues(SortValue, ms), MapValues(SortValue, ns);
    assert vs[i] in multiset(ws);
    var k :| 0 <= k < |ws| && ws[k] == vs[i];
    GetIs(ns, k);
  }

  lemma RebuiltSame(ms: seq<Member<Json>>, ns: seq<Member<Json>>)
    requires DistinctKeys(ms) && DistinctKeys(ns) && ValuesDecide(ms, ns)
    requires Rebuilt(MapValues(SortValue, ms)) == Rebuilt(MapValues(SortValue, ns))
    ensures Same(Obj(ms), Obj(ns))
  {
    forall i | 0 <= i < |ms| ensures ms[i].key in Keys(ns) && Same(ms[i].value, Get(ns, ms[i].key)) {
      Counterpart(ms, ns, i);
    }
    forall k | 0 <= k < |ns| ensures ns[k].key in Keys(ms) { Counterpart(ns, ms, k); }
    assert Keys(ms) == Keys(ns);
  }

  lemma SameRebuilt(ms: seq<Member<Json>>, ns: seq<Member<Json>>)
    requires DistinctKeys(ms) && DistinctKeys(ns) && ValuesDecide(ms, ns)
    requires Same(Obj(ms), Obj(ns))
    ensures Rebuilt(MapValues(SortValue, ms)) == Rebuilt(MapValues(SortValue, ns))
  {
    var vs, ws := MapValues(SortValue, ms), MapValues(SortValue, ns);
    forall i | 0 <= i < |ms| ensures vs[i] in ws {
      var v := Get(ns, ms[i].key);
      var k :| 0 <= k < |ns| && ns[k] == Member(ms[i].key, v);
      assert ws[k] == vs[i];
    }
    forall k | 0 <= k < |ns| ensures ws[k] in vs {
      assert ns[k].key in Keys(ms);
      var i :| 0 <= i < |ms| && ms[i].key == ns[k].key;
      GetIs(ns, k);
      assert vs[i] == ws[k];
    }
    SameMembersSameRebuilt(vs, ws);
  }

  // --- Non-finite numbers -------------------------------------------------------------

  /** What is left of a value once printed: JSON has no literal for a non-finite number but null. */
  ghost function Plain(j: Json): Json {
    match j
    case NonFinite => Null
    case Arr(items) => Arr(seq(|items|, i requires 0 <= i < |items| => Plain(items[i])))
    case Obj(ms) => Obj(seq(|ms|, i requires 0 <= i < |ms| => Member(ms[i].key, Plain(ms[i].value))))
    case _ => j
  }

  lemma {:induction false} PlainIsPlain(j: Json)
    ensures Finite(Plain(j)) && (Parsed(j) ==> Parsed(Plain(j))) && (Finite(j) ==> Plain(j) == j)
  {
    match j
    case Arr(items) => forall i | 0 <= i < |items| { PlainIsPlain(items[i]); }
    case Obj(ms) => forall i | 0 <= i < |ms| { PlainIsPlain(ms[i].value); }
    case _ =>
  }

  lemma {:induction false} PrintPlain(j: Json)
    ensures Print(Plain(j)) == Print(j)
  {
    PrintUnfolds(j);
    PrintUnfolds(Plain(j));
    match j
    case Arr(items) =>
      forall i | 0 <= i < |items| ensures Print(Plain(items[i])) == Print(items[i]) { PrintPlain(items[i]); }
      assert Prints(Plain(j).items) == Prints(items);
    case Obj(ms) =>
      forall i | 0 <= i < |ms| ensures Print(Plain(ms[i].value)) == Print(ms[i].value) { PrintPlain(ms[i].value); }
      assert MapValues(Print, Plain(j).members) == MapValues(Print, ms);
    case _ =>
  }

  lemma {:induction false} SortPlain(j: Json)
    ensures SortValue(Plain(j)) == Plain(SortValue(j))
  {
    match j
    case Arr(items) =>
      SortValueUnfolds(j);
      SortValueUnfolds(Plain(j));
      forall i | 0 <= i < |items| { SortPlain(items[i]); }
    case Obj(ms) =>
      forall i | 0 <= i < |ms| ensures SortValue(Plain(ms[i].value)) == Plain(SortValue(ms[i].value)) {
        SortPlain(ms[i].value);
      }
      SortPlainObject(ms);
    case _ =>
  }

  lemma PlainUnfolds(ms: seq<Member<Json>>)
    ensures Plain(Obj(ms)) == Obj(MapValues(Plain, ms))
  {
    assert seq(|ms|, i requires 0 <= i < |ms| => Member(ms[i].key, Plain(ms[i].value))) == MapValues(Plain, ms);
  }

  lemma SortPlainObject(ms: seq<Member<Json>>)
    requires forall i :: 0 <= i < |ms| ==> SortValue(Plain(ms[i].value)) == Plain(SortValue(ms[i].value))
    ensures SortValue(Plain(Obj(ms))) == Plain(SortValue(Obj(ms)))
  {
    var sorted := MapValues(SortValue, ms);
    PlainUnfolds(ms);
    SortValueUnfolds(Obj(ms));
    SortValueUnfolds(Obj(MapValues(Plain, ms)));
    assert MapValues(SortValue, MapValues(Plain, ms)) == MapValues(Plain, sorted);
    MapRebuilt(Plain, sorted);
    PlainUnfolds(Rebuilt(sorted));
  }

  // --- Main results -------------------------------------------------------------------

  /** Equal canonical text means: equal up to member order, once non-finite numbers read as null. */
  lemma CanonicalDecidesSame(a: Json, b: Json)
    requires Parsed(a) && Parsed(b)
    ensures Canonical(a) == Canonical(b) <==> Same(Plain(a), Plain(b))
    ensures Finite(a) && Finite(b) ==> (Canonical(a) == Canonical(b) <==> Same(a, b))
  {
    forall j | j == a || j == b
      ensures Parsed(Plain(j)) && Parsed(Plain(SortValue(j))) && Finite(Plain(SortValue(j)))
      ensures Canonical(j) == Print(Plain(SortValue(j))) && SortValue(Plain(j)) == Plain(SortValue(j))
    {
      SortKeepsParsed(j);
      PlainIsPlain(j);
      PlainIsPlain(SortValue(j));
      PrintPlain(SortValue(j));
      SortPlain(j);
    }
    PrintInjective(Plain(SortValue(a)), Plain(SortValue(b)));
    SortDecidesSame(Plain(a), Plain(b));
    PlainIsPlain(a);
    PlainIsPlain(b);
  }

  /** 1e999 and null are different values with the same canonical text, also as a member of a request's body. */
  lemma NonFiniteCollides(key: Text)
    ensures Canonical(NonFinite) == Canonical(Null) && !Same(NonFinite, Null)
    ensures var (a, b) := (Obj([Member(key, NonFinite)]), Obj([Member(key, Null)]));
      Parsed(a) && Parsed(b) && Canonical(a) == Canonical(b) && !Same(a, b)
  {
    var (a, b) := (Obj([Member(key, NonFinite)]), Obj([Member(key, Null)]));
    PlainIsPlain(a);
    PlainIsPlain(b);
    assert Plain(a) == b && Plain(b) == b;
    CanonicalDecidesSame(a, b);
    PlainDiffers(a);
  }

  /**
   Exactly when a value is told apart from every other parsed finite value that is not the same:
   when it holds finite numbers only.
   */
  lemma FaithfulExactlyWhenFinite(a: Json)
    requires Parsed(a)
    ensures Finite(a) <==> forall b :: Parsed(b) && Finite(b) ==> (Canonical(a) == Canonical(b) <==> Same(a, b))
  {
    if Finite(a) {
      forall b | Parsed(b) && Finite(b) ensures Canonical(a) == Canonical(b) <==> Same(a, b) {
        CanonicalDecidesSame(a, b);
      }
    } else {
      var b := Plain(a);
      PlainIsPlain(a);
      SortPlain(a);
      PrintPlain(SortValue(a));
      assert Canonical(a) == Canonical(b);
      PlainDiffers(a);
    }
  }

  lemma {:induction false} PlainDiffers(a: Json)
    requires Parsed(a) && !Finite(a)
    ensures !Same(a, Plain(a))
  {
    match a
    case Arr(items) =>
      var i :| 0 <= i < |items| && !Finite(items[i]);
      PlainDiffers(items[i]);
    case Obj(ms) =>
      var i :| 0 <= i < |ms| && !Finite(ms[i].value);
      PlainDiffers(ms[i].value);
      var ns := Plain(a).members;
      PlainIsPlain(a);
      GetIs(ns, i);
    case _ =>
  }

  /** Canonicalising what was canonicalised changes nothing. */
  lemma CanonicalStable(j: Json)
    requires Parsed(j)
    ensures SortValue(SortValue(j)) == SortValue(j) && Canonical(SortValue(j)) == Canonical(j) && Same(j, SortValue(j))
  {
    SameAsSorted(j);
    SortKeepsParsed(j);
    SortDecidesSame(j, SortValue(j));
  }

  lemma {:induction false} SameAsSorted(j: Json)
    requires Parsed(j)
    ensures Same(j, SortValue(j))
  {
    SortValueUnfolds(j);
    match j
    case Arr(items) => forall i | 0 <= i < |items| ensures Same(items[i], SortValue(items[i])) { SameAsSorted(items[i]);
      }
    case Obj(ms) =>
      SortKeepsParsed(j);
      forall i | 0 <= i < |ms| ensures Same(ms[i].value, SortValue(ms[i].value)) { SameAsSorted(ms[i].value); }
      SameAsRebuilt(ms, Rebuilt(MapValues(SortValue, ms)));
    case _ =>
  }

  lemma SameAsRebuilt(ms: seq<Member<Json>>, r: seq<Member<Json>>)
    requires DistinctKeys(ms) && DistinctKeys(r) && multiset(r) == multiset(MapValues(SortValue, ms))
    requires forall i :: 0 <= i < |ms| ==> Same(ms[i].value, SortValue(ms[i].value))
    ensures Same(Obj(ms), Obj(r))
  {
    var vs := MapValues(SortValue, ms);
    forall i | 0 <= i < |ms| ensures ms[i].key in Keys(r) && Get(r, ms[i].key) == SortValue(ms[i].value) {
      assert vs[i] in multiset(r);
      var k :| 0 <= k < |r| && r[k] == vs[i];
      GetIs(r, k);
    }
    forall k | 0 <= k < |r| ensures r[k].key in Keys(ms) {
      assert r[k] in multiset(vs);
      var i :| 0 <= i < |vs| && vs[i] == r[k];
      GetIs(ms, i);
    }
    assert Keys(ms) == Keys(r);
  }

  /** Sorting while printing and printing what was sorted give the same text. */
  lemma {:induction false} StableIsCanonical(j: Json)
    ensures Stable(j) == Canonical(j)
  {
    match j
    case Arr(items) =>
      forall i | 0 <= i < |items| ensures Stable(items[i]) == Canonical(items[i]) { StableIsCanonical(items[i]); }
      SortValueUnfolds(j);
      PrintUnfolds(SortValue(j));
      assert seq(|items|, i requires 0 <= i < |items| => Stable(items[i])) == Prints(SortValue(j).items);
    case Obj(ms) =>
      var r := Rebuilt(ms);
      forall i | 0 <= i < |r| ensures Stable(r[i].value) == Canonical(r[i].value) {
        assert r[i] in multiset(ms);
        StableIsCanonical(r[i].value);
      }
      StableObject(ms);
    case _ =>
  }

  lemma StableUnfolds(ms: seq<Member<Json>>)
    ensures Stable(Obj(ms)) == Braces(MapValues(Stable, Rebuilt(ms)))
  {
    var r := Rebuilt(ms);
    assert seq(|r|, i requires 0 <= i < |r| => Member(r[i].key, Stable(r[i].value))) == MapValues(Stable, r);
  }

  lemma StableObject(ms: seq<Member<Json>>)
    requires forall i :: 0 <= i < |Rebuilt(ms)| ==> Stable(Rebuilt(ms)[i].value) == Canonical(Rebuilt(ms)[i].value)
    ensures Stable(Obj(ms)) == Canonical(Obj(ms))
  {
    var r := Rebuilt(ms);
    StableUnfolds(ms);
    SortValueUnfolds(Obj(ms));
    MapRebuilt(SortValue, ms);
    PrintUnfolds(Obj(MapValues(SortValue, r)));
    assert MapValues(Print, MapValues(SortValue, r)) == MapValues(Stable, r);
  }

  // --- Requests ------------------------------------------------------------------------

  const NEWLINE: Unit := 0x0a

  /** The text a request's hash is taken of. */
  function RequestText(action: Text, path: Text, body: Json): Text {
    action + [NEWLINE] + path + [NEWLINE] + Canonical(body)
  }

  lemma LinesEnd(a: Text, x: Text, b: Text, y: Text)
    requires NEWLINE !in a && NEWLINE !in b && a + [NEWLINE] + x == b + [NEWLINE] + y
    ensures a == b && x == y
  {
    var t := a + [NEWLINE] + x;
    assert t[|a|] == NEWLINE && (b + [NEWLINE] + y)[|b|] == NEWLINE;
    assert forall i :: 0 <= i < |a| ==> t[i] == a[i];
    assert forall i :: 0 <= i < |b| ==> (b + [NEWLINE] + y)[i] == b[i];
    assert |a| == |b|;
    assert a == t[..|a|] && b == t[..|b|] && x == t[|a| + 1..] && y == t[|b| + 1..];
  }

  lemma TwoLinesEnd(a: Text, p: Text, x: Text, b: Text, q: Text, y: Text)
    requires NEWLINE !in a && NEWLINE !in p && NEWLINE !in b && NEWLINE !in q
    requires a + [NEWLINE] + p + [NEWLINE] + x == b + [NEWLINE] + q + [NEWLINE] + y
    ensures a == b && p == q && x == y
  {
    var u, v := p + [NEWLINE] + x, q + [NEWLINE] + y;
    assert a + [NEWLINE] + p + [NEWLINE] + x == a + [NEWLINE] + u;
    assert b + [NEWLINE] + q + [NEWLINE] + y == b + [NEWLINE] + v;
    LinesEnd(a, u, b, v);
    LinesEnd(p, x, q, y);
  }

  /** Which requests count as the same one under an idempotency key. */
  lemma SameRequest(action: Text, path: Text, body: Json, action': Text, path': Text, body': Json)
    requires Parsed(body) && Parsed(body')
    requires NEWLINE !in action && NEWLINE !in path && NEWLINE !in action' && NEWLINE !in path'
    ensures RequestText(action, path, body) == RequestText(action', path', body') <==>
              action == action' && path == path' && Same(Plain(body), Plain(body'))
  {
    CanonicalDecidesSame(body, body');
    if RequestText(action, path, body) == RequestText(action', path', body') {
      TwoLinesEnd(action, path, Canonical(body), action', path', Canonical(body'));
    }
  }

  // --- Field changes ---------------------------------------------------------------------

  datatype Change = Change(before: Json, after: Json)

  /** `record[field] ?? null` */
  function FieldOf(record: map<Text, Json>, field: Text): Json {
    if field in record then record[field] else Null
  }

  ghost predicate Record(record: map<Text, Json>) { forall f :: f in record ==> Parsed(record[f]) }

  /** The field's value differs by more than member order. */
  ghost predicate Differs(before: map<Text, Json>, after: map<Text, Json>, field: Text) {
    !Same(Plain(FieldOf(before, field)), Plain(FieldOf(after, field)))
  }

  /** A field that is missing on one side differs exactly if the other has something else than null. */
  lemma MissingReadsAsNull(record: map<Text, Json>, other: map<Text, Json>, field: Text)
    requires field !in record
    ensures Differs(record, other, field) <==> field in other && !Same(Null, Plain(other[field]))
    ensures Differs(other, record, field) <==> field in other && !Same(Plain(other[field]), Null)
  {
  }

  lemma StableDecides(before: map<Text, Json>, after: map<Text, Json>, field: Text)
    requires Record(before) && Record(after)
    ensures Stable(FieldOf(before, field)) == Stable(FieldOf(after, field)) <==> !Differs(before, after, field)
  {
    StableIsCanonical(FieldOf(before, field));
    StableIsCanonical(FieldOf(after, field));
    CanonicalDecidesSame(FieldOf(before, field), FieldOf(after, field));
  }

  /** Reports exactly the listed fields that differ, each with its old and new value; a missing field reads as null. */
  method FieldChanges(before: map<Text, Json>, after: map<Text, Json>, fields: seq<Text>)
    returns (changes: map<Text, Change>)
    requires Record(before) && Record(after)
    ensures forall f :: f in changes <==> f in fields && Differs(before, after, f)
    ensures forall f :: f in changes ==>
      changes[f] == Change(if f in before then before[f] else Null, if f in after then after[f] else Null)
  {
    changes := map[];
    for i := 0 to |fields|
      invariant forall f :: f in changes <==> f in fields[..i] && Differs(before, after, f)
      invariant forall f :: f in changes ==> changes[f] == Change(FieldOf(before, f), FieldOf(after, f))
    {
      var b, a := FieldOf(before, fields[i]), FieldOf(after, fields[i]);
      StableDecides(before, after, fields[i]);
      assert fields[..i + 1] == fields[..i] + [fields[i]];
      if Stable(b) == Stable(a) { continue; }
      changes := changes[fields[i] := Change(b, a)];
    }
  }
}
