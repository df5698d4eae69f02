/**
 * A Redis sorted set, as the store keeps it: entries (member, score) in
 * ascending order of score, equal scores ordered by member in code-point
 * lexicographic order, each member at most once. ZADD, ZRANGE (with and
 * without REV) and ZCARD are defined over this representation.
 */
module SortedSet {
  import Strings

  datatype Entry = Entry(member: string, score: int)

  /** The order Redis keeps: by score, then by member. */
  predicate Before(a: Entry, b: Entry) {
    a.score < b.score || (a.score == b.score && Strings.LexLess(a.member, b.member))
  }

  lemma BeforeTransitive(a: Entry, b: Entry, c: Entry)
    requires Before(a, b) && Before(b, c)
    ensures Before(a, c)
  {
    if a.score == b.score == c.score {
      Strings.LexLessTransitive(a.member, b.member, c.member);
    }
  }

  lemma BeforeTotal(a: Entry, b: Entry)
    requires a.member != b.member
    ensures Before(a, b) || Before(b, a)
  {
    Strings.LexLessTotal(a.member, b.member);
  }

  predicate Ordered(z: seq<Entry>) {
    forall i, j | 0 <= i < j < |z| :: Before(z[i], z[j])
  }

  predicate DistinctMembers(z: seq<Entry>) {
    forall i, j | 0 <= i < j < |z| :: z[i].member != z[j].member
  }

  /** The representation invariant of a sorted set. */
  predicate Valid(z: seq<Entry>) {
    Ordered(z) && DistinctMembers(z)
  }

  function MemberSet(z: seq<Entry>): set<string> {
    set e | e in z :: e.member
  }

  /** Every member sits at some position of the set. */
  lemma PositionOf(z: seq<Entry>, m: string) returns (i: nat)
    requires m in MemberSet(z)
    ensures i < |z| && z[i].member == m
  {
    var e :| e in z && e.member == m;
    i :| i < |z| && z[i] == e;
  }

  /** The score of a member (ZSCORE). */
  function Score(z: seq<Entry>, m: string): int
    requires m in MemberSet(z)
  {
    if z[0].member == m then z[0].score else Score(z[1..], m)
  }

  lemma {:induction false} ScoreAt(z: seq<Entry>, i: nat)
    requires DistinctMembers(z) && i < |z|
    ensures z[i].member in MemberSet(z) && Score(z, z[i].member) == z[i].score
  {
    if i > 0 {
      assert z[1..][i - 1] == z[i];
      ScoreAt(z[1..], i - 1);
    }
  }

  lemma {:induction false} MemberSetSize(z: seq<Entry>)
    requires DistinctMembers(z)
    ensures |MemberSet(z)| == |z|
  {
    if z != [] {
      assert MemberSet(z) == {z[0].member} + MemberSet(z[1..]);
      assert z[0].member !in MemberSet(z[1..]);
      MemberSetSize(z[1..]);
    }
  }

  /** A first entry before, and distinct from, every entry of a valid rest keeps the set valid. */
  lemma ConsValid(x: Entry, rest: seq<Entry>)
    requires Valid(rest)
    requires forall j | 0 <= j < |rest| :: Before(x, rest[j]) && x.member != rest[j].member
    ensures Valid([x] + rest)
  {
    var r := [x] + rest;
    forall i, j | 0 <= i < j < |r| ensures Before(r[i], r[j]) && r[i].member != r[j].member {
      assert r[j] == rest[j - 1];
      if i > 0 {
        assert r[i] == rest[i - 1];
      }
    }
  }

  /** The head of a valid set comes before every later entry. */
  lemma HeadFirst(z: seq<Entry>, e: Entry)
    requires Valid(z) && z != [] && e in z[1..]
    ensures Before(z[0], e) && z[0].member != e.member
  {
    var k :| 0 <= k < |z| - 1 && z[1..][k] == e;
    assert z[k + 1] == e;
  }

  /** ZREM of one member. */
  function Remove(z: seq<Entry>, m: string): (r: seq<Entry>)
    requires Valid(z)
    ensures Valid(r)
    ensures MemberSet(r) == MemberSet(z) - {m}
    ensures forall e | e in r :: e in z
    ensures forall x | x in MemberSet(r) :: Score(r, x) == Score(z, x)
    ensures |r| == if m in MemberSet(z) then |z| - 1 else |z|
    decreases |z|
  {
    if z == [] then []
    else
      var tail := z[1..];
      assert MemberSet(z) == {z[0].member} + MemberSet(tail);
      if z[0].member == m then
        assert m !in MemberSet(tail) by {
          forall e | e in tail ensures e.member != m {
            HeadFirst(z, e);
          }
        }
        forall x | x in MemberSet(tail) ensures Score(tail, x) == Score(z, x) {
          assert x != z[0].member;
        }
        tail
      else
        var rest := Remove(tail, m);
        forall j | 0 <= j < |rest| ensures Before(z[0], rest[j]) && z[0].member != rest[j].member {
          assert rest[j] in rest;
          HeadFirst(z, rest[j]);
        }
        ConsValid(z[0], rest);
        var r := [z[0]] + rest;
        assert MemberSet(r) == {z[0].member} + MemberSet(rest);
        forall x | x in MemberSet(r) ensures Score(r, x) == Score(z, x) {
          if x != z[0].member {
            assert x in MemberSet(rest);
            assert Score(r, x) == Score(rest, x);
          }
        }
        r
  }

  /** Inserts a new member at its place in the order. */
  function Insert(z: seq<Entry>, e: Entry): (r: seq<Entry>)
    requires Valid(z) && e.member !in MemberSet(z)
    ensures Valid(r)
    ensures MemberSet(r) == MemberSet(z) + {e.member}
    ensures forall x | x in r :: x in z || x == e
    ensures |r| == |z| + 1
    decreases |z|
  {
    if z == [] then [e]
    else if Before(z[0], e) then
      var tail := z[1..];
      assert MemberSet(z) == {z[0].member} + MemberSet(tail);
      var rest := Insert(tail, e);
      forall j | 0 <= j < |rest| ensures Before(z[0], rest[j]) && z[0].member != rest[j].member {
        assert rest[j] in rest;
        if rest[j] != e {
          HeadFirst(z, rest[j]);
        }
      }
      ConsValid(z[0], rest);
      var r := [z[0]] + rest;
      assert MemberSet(r) == {z[0].member} + MemberSet(rest);
      r
    else
      assert e.member != z[0].member;
      BeforeTotal(z[0], e);
      forall j | 0 <= j < |z| ensures Before(e, z[j]) && e.member != z[j].member {
        if j > 0 { BeforeTransitive(e, z[0], z[j]); }
        assert z[j] in z;
      }
      ConsValid(e, z);
      var r := [e] + z;
      assert MemberSet(r) == {e.member} + MemberSet(z);
      r
  }

  /** The score of every member after an insertion. */
  lemma InsertScores(z: seq<Entry>, e: Entry)
    requires Valid(z) && e.member !in MemberSet(z)
    ensures Score(Insert(z, e), e.member) == e.score
    ensures forall x | x in MemberSet(z) :: Score(Insert(z, e), x) == Score(z, x)
  {
    var r := Insert(z, e);
    assert e in r by { assert e.member in MemberSet(r); }
    var k :| 0 <= k < |r| && r[k] == e;
    ScoreAt(r, k);
    forall x | x in MemberSet(z) ensures Score(r, x) == Score(z, x) {
      var i :| 0 <= i < |z| && z[i].member == x;
      ScoreAt(z, i);
      assert x in MemberSet(r);
      var j :| 0 <= j < |r| && r[j].member == x;
      ScoreAt(r, j);
      assert r[j] in z;
      var i' :| 0 <= i' < |z| && z[i'] == r[j];
      ScoreAt(z, i');
    }
  }

  /** ZADD: sets the member's score, adding the member if it is new. */
  function Add(z: seq<Entry>, m: string, score: int): (r: seq<Entry>)
    requires Valid(z)
    ensures Valid(r)
    ensures MemberSet(r) == MemberSet(z) + {m}
    ensures |r| == if m in MemberSet(z) then |z| else |z| + 1
    ensures Score(r, m) == score
    ensures forall x | x in MemberSet(z) && x != m :: Score(r, x) == Score(z, x)
  {
    var removed := Remove(z, m);
    InsertScores(removed, Entry(m, score));
    Insert(removed, Entry(m, score))
  }

  /** The members in ascending rank: ZRANGE key 0 -1. */
  function Members(z: seq<Entry>): (r: seq<string>)
    ensures |r| == |z| && forall i | 0 <= i < |z| :: r[i] == z[i].member
  {
    if z == [] then [] else [z[0].member] + Members(z[1..])
  }

  /** The members in descending rank: the order ZRANGE ... REV reads. */
  function Descending(z: seq<Entry>): (r: seq<string>)
    ensures |r| == |z| && forall i | 0 <= i < |z| :: r[i] == z[|z| - 1 - i].member
  {
    if z == [] then [] else Descending(z[1..]) + [z[0].member]
  }

  /**
   * Descending rank order is by non-increasing score, and members with equal
   * scores come in reverse lexicographic order; no member is listed twice.
   */
  lemma DescendingOrder(z: seq<Entry>, i: nat, j: nat)
    requires Valid(z) && i < j < |z|
    ensures Score(z, Descending(z)[i]) >= Score(z, Descending(z)[j])
    ensures Score(z, Descending(z)[i]) == Score(z, Descending(z)[j]) ==>
              Strings.LexLess(Descending(z)[j], Descending(z)[i])
    ensures Descending(z)[i] != Descending(z)[j]
  {
    ScoreAt(z, |z| - 1 - i);
    ScoreAt(z, |z| - 1 - j);
  }

  /** Resolves a ZRANGE index: a negative index counts from the end. */
  function ResolveIndex(index: int, n: nat): int {
    if index < 0 then index + n else index
  }

  /**
   * The ranks ZRANGE key start stop REV reads, as a half-open interval:
   * negative indices count from the end, the start is clamped to 0 and the
   * stop to the last rank, and an empty range gives (0, 0).
   */
  function RevBounds(n: nat, start: int, stop: int): (b: (nat, nat))
    ensures b.0 <= b.1 <= n
  {
    var s := ResolveIndex(start, n);
    var e := ResolveIndex(stop, n);
    var s := if s < 0 then 0 else s;
    if s > e || s >= n then (0, 0)
    else (s, if e >= n then n else e + 1)
  }

  /** ZRANGE key start stop REV: the members at the descending ranks `RevBounds` gives. */
  function RangeRev(z: seq<Entry>, start: int, stop: int): (r: seq<string>)
    ensures |r| <= |z|
  {
    var b := RevBounds(|z|, start, stop);
    Descending(z)[b.0..b.1]
  }

  /** Every range lists members of the set, each once, by non-increasing score. */
  lemma RangeRevOrdered(z: seq<Entry>, start: int, stop: int)
    requires Valid(z)
    ensures var r := RangeRev(z, start, stop);
            && (forall i | 0 <= i < |r| :: r[i] in MemberSet(z))
            && (forall i, j | 0 <= i < j < |r| :: Score(z, r[i]) >= Score(z, r[j]) && r[i] != r[j])
  {
    var b := RevBounds(|z|, start, stop);
    assert RangeRev(z, start, stop) == Descending(z)[b.0..b.1];
    DescendingSliceOrdered(z, b.0, b.1);
  }

  lemma DescendingSliceOrdered(z: seq<Entry>, lo: nat, hi: nat)
    requires Valid(z) && lo <= hi <= |z|
    ensures var r := Descending(z)[lo..hi];
            && (forall i | 0 <= i < |r| :: r[i] in MemberSet(z))
            && (forall i, j | 0 <= i < j < |r| :: Score(z, r[i]) >= Score(z, r[j]) && r[i] != r[j])
  {
    var d := Descending(z);
    var r := d[lo..hi];
    forall i | 0 <= i < |r| ensures r[i] in MemberSet(z) {
      DescendingMember(z, lo + i);
    }
    forall i, j | 0 <= i < j < |r| ensures Score(z, r[i]) >= Score(z, r[j]) && r[i] != r[j] {
      assert r[i] == d[lo + i] && r[j] == d[lo + j];
      DescendingOrder(z, lo + i, lo + j);
    }
  }

  lemma DescendingMember(z: seq<Entry>, k: nat)
    requires k < |z|
    ensures Descending(z)[k] in MemberSet(z)
  {
    assert z[|z| - 1 - k] in z;
  }

  /** A page of `limit >= 1` entries from rank `offset >= 0` is the slice of the descending order. */
  lemma PageIsSlice(z: seq<Entry>, offset: nat, limit: nat)
    requires limit >= 1
    ensures var n := |z|;
            RangeRev(z, offset, offset + limit - 1)
              == Descending(z)[if offset < n then offset else n..if offset + limit < n then offset + limit else n]
  {
    PageBounds(|z|, offset, limit);
  }

  /** The bounds of a page, as integers. */
  lemma PageBounds(n: nat, offset: nat, limit: nat)
    requires limit >= 1
    ensures var b := RevBounds(n, offset, offset + limit - 1);
            && (offset >= n ==> b == (0, 0))
            && (offset < n ==> b == (offset, if offset + limit < n then offset + limit else n))
  {
  }

  /** With limit 0 the stop index is -1, so the whole set is read. */
  lemma LimitZeroReadsAll(z: seq<Entry>)
    ensures RangeRev(z, 0, 0 + 0 - 1) == Descending(z)
  {
  }

  /** The pages at offsets 0, limit, 2 * limit, ... read one after another, `k` of them. */
  function Pages(z: seq<Entry>, limit: nat, k: nat): seq<string> {
    if k == 0 then []
    else Pages(z, limit, k - 1) + RangeRev(z, (k - 1) * limit, (k - 1) * limit + limit - 1)
  }

  /**
   * Successive pages partition the descending order: read one after another
   * they give its first `k * limit` members, with no gap and no repeat.
   */
  lemma {:induction false} PagesPartition(z: seq<Entry>, limit: nat, k: nat)
    requires limit >= 1
    ensures Pages(z, limit, k) == Descending(z)[..if k * limit < |z| then k * limit else |z|]
  {
    if k > 0 {
      var d, o := Descending(z), (k - 1) * limit;
      var prev, page := Pages(z, limit, k - 1), RangeRev(z, o, o + limit - 1);
      assert Pages(z, limit, k) == prev + page;
      NextOffset(k, limit);
      PagesPartition(z, limit, k - 1);
      PageIsSlice(z, o, limit);
      PageJoin(d, prev, page, o, k * limit);
    }
  }

  /** A prefix of `d` up to `o` followed by the slice from `o` to `next` is the prefix up to `next`, ends clamped to `|d|`. */
  lemma PageJoin(d: seq<string>, prev: seq<string>, page: seq<string>, o: nat, next: nat)
    requires o <= next
    requires prev == d[..if o < |d| then o else |d|]
    requires page == d[if o < |d| then o else |d|..if next < |d| then next else |d|]
    ensures prev + page == d[..if next < |d| then next else |d|]
  {
  }

  /** The offset of page `k - 1` is a natural number, one limit short of the offset of page `k`. */
  lemma NextOffset(k: nat, limit: nat)
    requires k >= 1
    ensures 0 <= (k - 1) * limit && (k - 1) * limit + limit == k * limit
  {
  }
}
