/**
 The key-value store behind the login issuer: joined segment keys, escaped LIKE patterns, and prefix scans.
 */
module AuthKv {
  import opened Wrappers
  import opened JsonText

  // --- Segment keys ---------------------------------------------------------------

  const SEPARATOR: Unit := 0x1f

  type Segments = seq<Text>

  function JoinKey(key: Segments): Text {
    if |key| == 0 then [] else if |key| == 1 then key[0] else key[0] + ([SEPARATOR] + JoinKey(key[1..]))
  }

  function SplitKey(key: Text): (r: Segments)
    ensures |r| > 0
  {
    if |key| == 0 then [[]]
    else
      var rest := SplitKey(key[1..]);
      if key[0] == SEPARATOR then [[]] + rest else [[key[0]] + rest[0]] + rest[1..]
  }

  predicate SeparatorFree(key: Segments) { forall i :: 0 <= i < |key| ==> SEPARATOR !in key[i] }

  lemma JoinCons(first: Text, rest: Segments)
    requires |rest| > 0
    ensures JoinKey([first] + rest) == first + ([SEPARATOR] + JoinKey(rest))
  {
    assert ([first] + rest)[1..] == rest;
  }

  /** One more unit in front of the first segment. */
  lemma JoinUnit(u: Unit, rest: Segments)
    requires |rest| > 0
    ensures JoinKey([[u] + rest[0]] + rest[1..]) == [u] + JoinKey(rest)
  {
    var (first, tail) := (rest[0], rest[1..]);
    assert rest == [first] + tail;
    if |tail| == 0 {
      assert [[u] + first] + tail == [[u] + first];
    } else {
      JoinCons(first, tail);
      JoinCons([u] + first, tail);
      Assoc([u], first, [SEPARATOR] + JoinKey(tail));
    }
  }

  /** Splitting loses nothing. */
  lemma {:induction false} JoinSplit(key: Text)
    ensures JoinKey(SplitKey(key)) == key && SeparatorFree(SplitKey(key))
  {
    if |key| > 0 {
      JoinSplit(key[1..]);
      assert key == [key[0]] + key[1..];
      if key[0] == SEPARATOR { JoinCons([], SplitKey(key[1..])); } else { JoinUnit(key[0], SplitKey(key[1..])); }
    }
  }

  lemma {:induction false} SplitAfterSegment(segment: Text, rest: Text)
    requires SEPARATOR !in segment
    ensures SplitKey(segment + ([SEPARATOR] + rest)) == [segment] + SplitKey(rest)
    ensures SplitKey(segment) == [segment]
  {
    var key := segment + ([SEPARATOR] + rest);
    if |segment| == 0 {
      assert key[1..] == rest;
    } else {
      assert key[1..] == segment[1..] + ([SEPARATOR] + rest);
      SplitAfterSegment(segment[1..], rest);
      assert segment == [segment[0]] + segment[1..];
    }
  }

  lemma {:induction false} SplitJoinFree(key: Segments)
    requires |key| > 0 && SeparatorFree(key)
    ensures SplitKey(JoinKey(key)) == key
  {
    SplitAfterSegment(key[0], JoinKey(key[1..]));
    if |key| > 1 {
      SplitJoinFree(key[1..]);
      JoinCons(key[0], key[1..]);
      assert key == [key[0]] + key[1..];
    }
  }

  /** Splitting undoes joining exactly for the non-empty keys whose segments contain no separator. */
  lemma SplitUndoesJoin(key: Segments)
    ensures SplitKey(JoinKey(key)) == key <==> |key| > 0 && SeparatorFree(key)
  {
    JoinSplit(JoinKey(key));
    if |key| > 0 && SeparatorFree(key) { SplitJoinFree(key); }
  }

  /** The string filter of `scan`: the joined prefix itself, or the prefix and a separator first. */
  predicate UnderPrefix(joined: Text, key: Text) { key == joined || joined + [SEPARATOR] <= key }

  /** What one more unit in front does to the segments. */
  function Put(u: Unit, rest: Segments): (r: Segments)
    requires |rest| > 0
  {
    if u == SEPARATOR then [[]] + rest else [[u] + rest[0]] + rest[1..]
  }

  lemma PutExtends(u: Unit, a: Segments, b: Segments)
    requires |a| > 0
    ensures Put(u, a + b) == Put(u, a) + b
  {
    assert (a + b)[1..] == a[1..] + b;
  }

  lemma SplitPuts(key: Text)
    requires |key| > 0
    ensures SplitKey(key) == Put(key[0], SplitKey(key[1..]))
  {
  }

  lemma {:induction false} SplitExtends(joined: Text, rest: Text)
    ensures SplitKey(joined + ([SEPARATOR] + rest)) == SplitKey(joined) + SplitKey(rest)
  {
    var key := joined + ([SEPARATOR] + rest);
    SplitPuts(key);
    if |joined| == 0 {
      assert key[1..] == rest;
    } else {
      assert key[1..] == joined[1..] + ([SEPARATOR] + rest);
      SplitExtends(joined[1..], rest);
      SplitPuts(joined);
      PutExtends(joined[0], SplitKey(joined[1..]), SplitKey(rest));
    }
  }

  lemma {:induction false} JoinExtends(a: Segments, b: Segments)
    requires |a| > 0 && |b| > 0
    ensures JoinKey(a + b) == JoinKey(a) + ([SEPARATOR] + JoinKey(b))
  {
    assert a == [a[0]] + a[1..];
    if |a| == 1 {
      assert a + b == [a[0]] + b;
      JoinCons(a[0], b);
    } else {
      JoinExtends(a[1..], b);
      assert a + b == [a[0]] + (a[1..] + b);
      JoinCons(a[0], a[1..] + b);
      JoinCons(a[0], a[1..]);
    }
  }

  /** The filter on strings is a whole-segment prefix test. */
  lemma FilterIsSegmentPrefix(joined: Text, key: Text)
    ensures UnderPrefix(joined, key) <==> SplitKey(joined) <= SplitKey(key)
  {
    if joined + [SEPARATOR] <= key {
      var rest := key[|joined| + 1..];
      assert key == joined + ([SEPARATOR] + rest);
      SplitExtends(joined, rest);
    }
    if SplitKey(joined) <= SplitKey(key) {
      var p, k := SplitKey(joined), SplitKey(key);
      JoinSplit(joined);
      JoinSplit(key);
      if |p| == |k| {
        assert p == k;
      } else {
        assert k == p + k[|p|..];
        JoinExtends(p, k[|p|..]);
      }
    }
  }

  // --- LIKE -----------------------------------------------------------------------

  const PERCENT: Unit := 0x25
  const UNDERSCORE: Unit := 0x5f

  /** SQLite compares ASCII letters without case. */
  function Fold(u: Unit): Unit { if 0x41 <= u <= 0x5a then u + 0x20 else u }

  /** Units fold together that are the same, or the two cases of one of the 26 letters. */
  lemma FoldsTogether(u: Unit, v: Unit)
    ensures Fold(u) == Fold(v) <==>
      u == v || (0x41 <= u < 0x41 + 26 && v == u + 0x20) || (0x41 <= v < 0x41 + 26 && u == v + 0x20)
  {
  }

  function FoldAll(t: Text): (r: Text)
    ensures |r| == |t| && forall i :: 0 <= i < |t| ==> r[i] == Fold(t[i])
  {
    seq(|t|, i requires 0 <= i < |t| => Fold(t[i]))
  }

  /** `text LIKE pattern ESCAPE '\\'` */
  predicate Like(pattern: Text, text: Text)
    decreases |pattern| + |text|
  {
    if |pattern| == 0 then |text| == 0
    else if pattern[0] == PERCENT then Like(pattern[1..], text) || (|text| > 0 && Like(pattern, text[1..]))
    else if pattern[0] == BACKSLASH then
      |pattern| > 1 && |text| > 0 && Fold(pattern[1]) == Fold(text[0]) && Like(pattern[2..], text[1..])
    else |text| > 0 && (pattern[0] == UNDERSCORE || Fold(pattern[0]) == Fold(text[0])) && Like(pattern[1..], text[1..])
  }

  function LikeEscape(s: Text): Text {
    if |s| == 0 then []
    else (if s[0] in {BACKSLASH, PERCENT, UNDERSCORE} then [BACKSLASH, s[0]] else [s[0]]) + LikeEscape(s[1..])
  }

  lemma {:induction false} PercentMatchesAll(text: Text)
    ensures Like([PERCENT], text)
  {
    if |text| > 0 { PercentMatchesAll(text[1..]); }
  }

  /** The escaped pattern means: starts with the prefix, up to ASCII case. Nothing in it is a wildcard. */
  lemma {:induction false} LikeIsPrefix(prefix: Text, text: Text)
    ensures Like(LikeEscape(prefix) + [PERCENT], text) <==>
      |prefix| <= |text| && FoldAll(prefix) == FoldAll(text[..|prefix|])
  {
    var pattern := LikeEscape(prefix) + [PERCENT];
    if |prefix| == 0 {
      PercentMatchesAll(text);
      assert pattern == [PERCENT];
    } else {
      var n := |LikeEscape(prefix)| - |LikeEscape(prefix[1..])|;
      assert pattern[n..] == LikeEscape(prefix[1..]) + [PERCENT];
      if |text| > 0 {
        LikeIsPrefix(prefix[1..], text[1..]);
        if |prefix| <= |text| { FoldSplits(prefix, text); }
      }
    }
  }

  lemma FoldSplits(prefix: Text, text: Text)
    requires 0 < |prefix| <= |text|
    ensures FoldAll(prefix) == FoldAll(text[..|prefix|]) <==>
      Fold(prefix[0]) == Fold(text[0]) && FoldAll(prefix[1..]) == FoldAll(text[1..][..|prefix| - 1])
  {
    var a, b := FoldAll(prefix), FoldAll(text[..|prefix|]);
    var c, d := FoldAll(prefix[1..]), FoldAll(text[1..][..|prefix| - 1]);
    assert forall i :: 0 <= i < |c| ==> c[i] == a[i + 1] && d[i] == b[i + 1];
    if Fold(prefix[0]) == Fold(text[0]) && c == d {
      forall i | 0 <= i < |a| ensures a[i] == b[i] { if i > 0 { assert c[i - 1] == d[i - 1]; } }
    }
    if a == b { assert c == d; }
  }

  predicate StartsFolded(prefix: Text, key: Text) { |prefix| <= |key| && FoldAll(prefix) == FoldAll(key[..|prefix|]) }

  lemma StartsExactly(prefix: Text, key: Text)
    requires UnderPrefix(prefix, key)
    ensures StartsFolded(prefix, key)
  {
    assert key[..|prefix|] == prefix;
  }

  // --- The store ------------------------------------------------------------------

  datatype Row = Row(value: Text, expiry: Option<int>)

  type Rows = map<Text, Row>

  predicate LiveRow(row: Row, now: int) { row.expiry.None? || row.expiry.value > now }

  /** A row lives until its expiry, and forever without one. */
  lemma LivesUntil(value: Text, at: int, now: int)
    ensures LiveRow(Row(value, None), now) && (LiveRow(Row(value, Some(at)), now) <==> now < at)
  {
  }

  /** What the opportunistic cleanup leaves. */
  function Cleaned(rows: Rows, now: int): Rows {
    map key | key in rows && (rows[key].expiry.Some? ==> rows[key].expiry.value >= now) :: rows[key]
  }

  /** It takes exactly the rows whose expiry is past. */
  lemma CleanupTakes(rows: Rows, now: int)
    ensures forall key :: key in Cleaned(rows, now) ==> key in rows && Cleaned(rows, now)[key] == rows[key]
    ensures forall key :: key in rows ==>
      (key !in Cleaned(rows, now) <==> rows[key].expiry.Some? && rows[key].expiry.value < now)
  {
  }

  /** DELETE of everything the escaped pattern matches. */
  function WithoutPrefix(rows: Rows, prefix: Text): Rows {
    map key | key in rows && !Like(LikeEscape(prefix) + [PERCENT], key) :: rows[key]
  }

  class KvStore {
    var rows: Rows

    constructor ()
      ensures rows == map[]
    {
      rows := map[];
    }

    /** An expired row answers as absent, and is dropped. */
    method Get(key: Text, now: int) returns (row: Option<Row>)
      modifies this
      ensures var there := key in old(rows); var over := there && old(rows)[key].expiry.Some? &&
          old(rows)[key].expiry.value <= now;
        && row == (if there && !over then Some(old(rows)[key]) else None)
        && rows == (if over then old(rows) - {key} else old(rows))
    {
      if key !in rows { return None; }
      var found := rows[key];
      if found.expiry.Some? && found.expiry.value <= now {
        rows := rows - {key};
        return None;
      }
      return Some(found);
    }

    method Set(key: Text, value: Text, expiry: Option<int>)
      modifies this
      ensures rows == old(rows)[key := Row(value, expiry)]
    {
      rows := rows[key := Row(value, expiry)];
    }

    method Remove(key: Text)
      modifies this
      ensures rows == old(rows) - {key}
    {
      rows := rows - {key};
    }

    /** Every live row whose key starts with the prefix, up to ASCII case; expired rows are cleaned up. */
    method ScanPrefix(prefix: Text, now: int) returns (found: Rows)
      modifies this
      ensures rows == Cleaned(old(rows), now)
      ensures forall key :: key in found <==>
                key in old(rows) && LiveRow(old(rows)[key], now) && StartsFolded(prefix, key)
      ensures forall key :: key in found ==> found[key] == old(rows)[key]
    {
      rows := Cleaned(rows, now);
      var matching := map key | key in rows && Like(LikeEscape(prefix) + [PERCENT], key) :: rows[key];
      found := map key | key in matching && LiveRow(matching[key], now) :: matching[key];
      forall key: Text { LikeIsPrefix(prefix, key); }
    }

    /**
     Exactly the live keys whose segments extend the prefix segments, with their values. A prefix that is
     empty or has a separator inside a segment counts as the segments its joined form splits into.
     */
    method Scan(prefix: Segments, now: int) returns (found: map<Segments, Text>)
      modifies this
      ensures rows == Cleaned(old(rows), now)
      ensures forall key ::
                (key in old(rows) && LiveRow(old(rows)[key], now) && SplitKey(JoinKey(prefix)) <= SplitKey(key)) ==>
                SplitKey(key) in found && found[SplitKey(key)] == old(rows)[key].value
      ensures forall segments :: segments in found ==>
                SplitKey(JoinKey(prefix)) <= segments && JoinKey(segments) in old(rows) &&
                  LiveRow(old(rows)[JoinKey(segments)], now)
      ensures |prefix| > 0 && SeparatorFree(prefix) ==> forall segments :: segments in found ==> prefix <= segments
    {
      var joined := JoinKey(prefix);
      var candidates := ScanPrefix(joined, now);
      found := FilterSegments(candidates, joined);
      SplitUndoesJoin(prefix);
      forall key | key in old(rows) && LiveRow(old(rows)[key], now) &&
        SplitKey(joined) <= SplitKey(key) ensures key in candidates {
        FilterIsSegmentPrefix(joined, key);
        StartsExactly(joined, key);
      }
    }

    /** The loop over the candidate rows. */
    method FilterSegments(candidates: Rows, joined: Text) returns (found: map<Segments, Text>)
      ensures forall key :: key in candidates && SplitKey(joined) <= SplitKey(key) ==>
                SplitKey(key) in found && found[SplitKey(key)] == candidates[key].value
      ensures forall segments :: segments in found ==> SplitKey(joined) <= segments && JoinKey(segments) in candidates
    {
      var left := candidates.Keys;
      found := map[];
      while left != {}
        invariant left <= candidates.Keys
        invariant forall key :: key in candidates.Keys - left && SplitKey(joined) <= SplitKey(key) ==>
                    SplitKey(key) in found && found[SplitKey(key)] == candidates[key].value
        invariant forall segments :: segments in found ==>
          SplitKey(joined) <= segments && JoinKey(segments) in candidates
      {
        var key :| key in left;
        left := left - {key};
        FilterIsSegmentPrefix(joined, key);
        if key != joined && !(joined + [SEPARATOR] <= key) { continue; }
        JoinSplit(key);
        forall other | other in candidates && SplitKey(other) == SplitKey(key) ensures other == key {
          JoinSplit(other);
        }
        found := found[SplitKey(key) := candidates[key].value];
      }
    }
  }
}
