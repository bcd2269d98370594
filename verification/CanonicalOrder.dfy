/**
 The member order of canonical objects, as a reader of the text sees it: keys that are array indices first, in
 numeric order, and all others by code units.
 */
module CanonicalOrder {
  import opened JsonText
  import opened CanonicalJson

  // --- Array indices -----------------------------------------------------------------

  /** The decimal notation of a number. */
  function Decimal(n: nat): (t: Text)
    ensures |t| > 0 && forall i :: 0 <= i < |t| ==> Digit(t[i])
  {
    if n < 10 then [0x30 + n] else Decimal(n / 10) + [0x30 + n % 10]
  }

  lemma {:induction false} DecimalReads(n: nat)
    ensures DigitsValue(Decimal(n)) == n
    ensures Decimal(n)[0] == 0x30 ==> n == 0 && |Decimal(n)| == 1
  {
    if n >= 10 {
      DecimalReads(n / 10);
      var t := Decimal(n);
      assert t[..|t| - 1] == Decimal(n / 10) && t[|t| - 1] == 0x30 + n % 10;
    } else {
      assert DigitsValue([]) == 0;
      assert Decimal(n)[..0] == [];
    }
  }

  lemma {:induction false} DigitsArePrinted(key: Text)
    requires |key| > 0 && (forall i :: 0 <= i < |key| ==> Digit(key[i])) && (|key| > 1 ==> key[0] != 0x30)
    ensures Decimal(DigitsValue(key)) == key && (key[0] != 0x30 ==> DigitsValue(key) > 0)
    decreases |key|
  {
    var rest, last := key[..|key| - 1], key[|key| - 1];
    assert key == rest + [last];
    if |rest| == 0 {
      assert DigitsValue(rest) == 0;
    } else {
      DigitsArePrinted(rest);
      assert DigitsValue(key) / 10 == DigitsValue(rest) && DigitsValue(key) % 10 == DigitValue(last);
    }
  }

  /** A key is an array index exactly if it is the decimal notation of a number below 2^32 - 1. */
  lemma IndexExactlyWhen(key: Text)
    ensures IndexOf(key).0 <==> exists n: nat :: n < 4_294_967_295 && key == Decimal(n)
    ensures IndexOf(key).0 ==> key == Decimal(IndexOf(key).1)
  {
    if IndexOf(key).0 { DigitsArePrinted(key); }
    forall n: nat | n < 4_294_967_295 && key == Decimal(n) ensures IndexOf(key) == (true, n) { DecimalReads(n); }
  }

  // --- Named keys ----------------------------------------------------------------------

  /** At the first unit in which they differ the first key has the smaller one, or has ended. */
  predicate SmallerAt(a: Text, b: Text, i: nat) {
    i <= |a| && i < |b| && a[..i] == b[..i] && (i < |a| ==> a[i] < b[i])
  }

  lemma {:induction false} KeyLessExactlyWhen(a: Text, b: Text)
    ensures KeyLess(a, b) <==> exists i: nat :: SmallerAt(a, b, i)
  {
    if KeyLess(a, b) { var i := FirstDifference(a, b); }
    forall i: nat | SmallerAt(a, b, i) ensures KeyLess(a, b) { DifferenceDecides(a, b, i); }
  }

  lemma {:induction false} FirstDifference(a: Text, b: Text) returns (i: nat)
    requires KeyLess(a, b)
    ensures SmallerAt(a, b, i)
  {
    if |a| > 0 && a[0] == b[0] {
      var j := FirstDifference(a[1..], b[1..]);
      i := j + 1;
      assert a[..i] == [a[0]] + a[1..][..j] && b[..i] == [b[0]] + b[1..][..j];
    } else {
      i := 0;
    }
  }

  lemma {:induction false} DifferenceDecides(a: Text, b: Text, i: nat)
    requires SmallerAt(a, b, i)
    ensures KeyLess(a, b)
  {
    if i > 0 {
      assert a[0] == a[..i][0] && b[0] == b[..i][0];
      assert a[1..][..i - 1] == a[..i][1..] && b[1..][..i - 1] == b[..i][1..];
      DifferenceDecides(a[1..], b[1..], i - 1);
    }
  }

  // --- The order ---------------------------------------------------------------------

  predicate IsIndex(key: Text, n: nat) { n < 4_294_967_295 && key == Decimal(n) }

  /** Which of two keys of an object comes first in its canonical text. */
  ghost predicate Before(a: Text, b: Text) {
    if exists n: nat :: IsIndex(a, n) then forall m: nat :: IsIndex(b, m) ==> exists n: nat :: IsIndex(a, n) && n < m
    else (forall m: nat :: !IsIndex(b, m)) && exists i: nat :: SmallerAt(a, b, i)
  }

  /** Different indices denote different numbers. */
  lemma IndicesDiffer(a: Text, b: Text)
    requires IndexOf(a).0 && IndexOf(b).0 && a != b
    ensures IndexOf(a).1 != IndexOf(b).1
  {
    IndexExactlyWhen(a);
    IndexExactlyWhen(b);
  }

  lemma IndexLessTransitive()
    ensures Transitive(IndexLess)
  {
  }

  /** The two parts of an object's members: those with an index for a key, and the others. */
  lemma {:induction false} PartsAre<V>(ms: seq<Member<V>>, x: Member<V>)
    ensures x in IndexMembers(ms) <==> x in ms && IndexOf(x.key).0
    ensures x in NamedMembers(ms) <==> x in ms && !IndexOf(x.key).0
  {
    if |ms| > 0 {
      var rest := ms[1..];
      PartsAre(rest, x);
      assert x in ms <==> x == ms[0] || x in rest;
      if IndexOf(ms[0].key).0 { InInserted(IndexLess, ms[0], IndexMembers(rest), x); }
    }
  }

  lemma {:induction false} IndexMembersNumbered<V>(ms: seq<Member<V>>)
    requires DistinctKeys(ms)
    ensures Chain(IndexLess, IndexMembers(ms))
  {
    if |ms| > 0 {
      var r := IndexMembers(ms[1..]);
      IndexMembersNumbered(ms[1..]);
      if IndexOf(ms[0].key).0 {
        forall x | x in r ensures IndexLess(x.key, ms[0].key) || IndexLess(ms[0].key, x.key) {
          PartsAre(ms[1..], x);
          IndicesDiffer(x.key, ms[0].key);
        }
        IndexLessTransitive();
        InsertChain(IndexLess, ms[0], r);
      }
    }
  }

  lemma {:induction false} NamedMembersAscending<V>(ms: seq<Member<V>>)
    requires Chain(KeyLess, ms)
    ensures Chain(KeyLess, NamedMembers(ms))
  {
    if |ms| > 0 {
      var (rest, r) := (ms[1..], NamedMembers(ms[1..]));
      NamedMembersAscending(rest);
      forall x | x in r ensures KeyLess(ms[0].key, x.key) {
        PartsAre(rest, x);
        var k :| 0 <= k < |rest| && rest[k] == x;
        assert ms[k + 1] == x;
      }
      ConsChain(KeyLess, ms[0], r);
      assert [] + r == r;
    }
  }

  lemma BeforeIs(a: Text, b: Text)
    ensures Before(a, b) <==>
      if IndexOf(a).0 then IndexOf(b).0 ==> IndexOf(a).1 < IndexOf(b).1 else !IndexOf(b).0 && KeyLess(a, b)
  {
    IsIndexIs(a);
    IsIndexIs(b);
    KeyLessExactlyWhen(a, b);
  }

  lemma IsIndexIs(key: Text)
    ensures forall n: nat :: IsIndex(key, n) <==> IndexOf(key) == (true, n)
  {
    forall n: nat ensures IsIndex(key, n) <==> IndexOf(key) == (true, n) {
      IndexExactlyWhen(key);
      DecimalReads(n);
      if IndexOf(key).0 { DecimalReads(IndexOf(key).1); }
    }
  }

  lemma RebuiltInOrder<V>(ms: seq<Member<V>>, i: nat, j: nat)
    requires DistinctKeys(ms) && i < j < |Rebuilt(ms)|
    ensures Before(Rebuilt(ms)[i].key, Rebuilt(ms)[j].key)
  {
    var s := SortMembers(ms);
    SortAscending(ms);
    SortKeeps(ms);
    PermutedKeysDistinct(ms, s);
    IndexMembersNumbered(s);
    assert Chain(KeyLess, s);
    NamedMembersAscending(s);
    forall x { PartsAre(s, x); }
    var (front, back) := (IndexMembers(s), NamedMembers(s));
    assert Rebuilt(ms) == front + back;
    BeforeIs(Rebuilt(ms)[i].key, Rebuilt(ms)[j].key);
    if j < |front| {
      assert front[i] in front && front[j] in front && IndexLess(front[i].key, front[j].key);
    } else {
      assert back[j - |front|] in back;
      if i >= |front| { assert back[i - |front|] in back; } else { assert front[i] in front; }
    }
  }

  /** The members of a canonical object come in this order, at every depth. */
  lemma CanonicalInOrder(ms: seq<Member<Json>>, i: nat, j: nat)
    requires Parsed(Obj(ms)) && SortValue(Obj(ms)).Obj? && i < j < |SortValue(Obj(ms)).members|
    ensures var r := SortValue(Obj(ms)).members; Before(r[i].key, r[j].key)
  {
    SortValueUnfolds(Obj(ms));
    RebuiltInOrder(MapValues(SortValue, ms), i, j);
  }
}
