/**
 * The order index: a Redis sorted set. Each member (a byte string) appears at most once with
 * one score; entries are ordered by score, and entries with equal scores by the bytes of
 * their members (shorter prefix first), which is how ZRANGEBYSCORE lists them.
 */
module SortedSet {
  import opened GoTypes

  datatype Entry = Entry(score: int, member: seq<byte>)

  /** Byte-wise lexicographic order; a proper prefix comes first. */
  predicate LexLess(a: seq<byte>, b: seq<byte>)
    decreases |a|
  {
    if |a| == 0 then |b| > 0
    else if |b| == 0 then false
    else if a[0] != b[0] then a[0] < b[0]
    else LexLess(a[1..], b[1..])
  }

  lemma {:induction false} LexIrreflexive(a: seq<byte>)
    ensures !LexLess(a, a)
  {
    if |a| > 0 { LexIrreflexive(a[1..]); }
  }

  lemma {:induction false} LexTransitive(a: seq<byte>, b: seq<byte>, c: seq<byte>)
    requires LexLess(a, b) && LexLess(b, c)
    ensures LexLess(a, c)
    decreases |a|
  {
    if |a| > 0 && |b| > 0 && |c| > 0 && a[0] == b[0] && b[0] == c[0] {
      LexTransitive(a[1..], b[1..], c[1..]);
    }
  }

  lemma {:induction false} LexTotal(a: seq<byte>, b: seq<byte>)
    requires a != b
    ensures LexLess(a, b) || LexLess(b, a)
    decreases |a|
  {
    if |a| > 0 && |b| > 0 && a[0] == b[0] {
      assert a == [a[0]] + a[1..] && b == [b[0]] + b[1..];
      LexTotal(a[1..], b[1..]);
    }
  }

  predicate EntryLess(x: Entry, y: Entry) {
    x.score < y.score || (x.score == y.score && LexLess(x.member, y.member))
  }

  lemma EntryLessTransitive(x: Entry, y: Entry, z: Entry)
    requires EntryLess(x, y) && EntryLess(y, z)
    ensures EntryLess(x, z)
  {
    if x.score == y.score == z.score {
      LexTransitive(x.member, y.member, z.member);
    }
  }

  /** Strictly ascending in (score, member). */
  ghost predicate Sorted(s: seq<Entry>) {
    forall i, j :: 0 <= i < j < |s| ==> EntryLess(s[i], s[j])
  }

  /** No member appears twice. */
  ghost predicate UniqueMembers(s: seq<Entry>) {
    forall i, j :: 0 <= i < j < |s| ==> s[i].member != s[j].member
  }

  ghost predicate Valid(s: seq<Entry>) {
    Sorted(s) && UniqueMembers(s)
  }

  lemma SortedHead(s: seq<Entry>)
    ensures Sorted(s) && |s| > 0 ==> forall x :: x in s[1..] ==> EntryLess(s[0], x)
  {
    if Sorted(s) && |s| > 0 {
      forall x | x in s[1..] ensures EntryLess(s[0], x) {
        var k :| 0 <= k < |s[1..]| && s[1..][k] == x;
        assert s[k + 1] == x;
      }
    }
  }

  /** The entries whose member is not m, in their order. */
  function Remove(s: seq<Entry>, m: seq<byte>): (r: seq<Entry>)
    ensures forall x :: x in r <==> x in s && x.member != m
    ensures Sorted(s) ==> Sorted(r)
    ensures UniqueMembers(s) ==> UniqueMembers(r)
  {
    if |s| == 0 then []
    else
      var rest := Remove(s[1..], m);
      SortedHead(s);
      if s[0].member == m then rest else [s[0]] + rest
  }

  /** The sorted insertion of an entry whose member is not yet present. */
  function Insert(s: seq<Entry>, e: Entry): (r: seq<Entry>)
    requires Sorted(s)
    decreases |s|, 1
    ensures forall x :: x in r <==> x in s || x == e
    ensures |r| == |s| + 1
    ensures (forall x :: x in s ==> x.member != e.member) ==> Sorted(r)
    ensures (forall x :: x in s ==> x.member != e.member) && UniqueMembers(s) ==> UniqueMembers(r)
  {
    if |s| == 0 then [e]
    else if EntryLess(e, s[0]) then
      var r := [e] + s;
      assert forall x :: x in s ==> EntryLess(e, x) by {
        forall x | x in s ensures EntryLess(e, x) {
          var k :| 0 <= k < |s| && s[k] == x;
          if k > 0 { EntryLessTransitive(e, s[0], x); }
        }
      }
      r
    else
      var r := [s[0]] + Insert(s[1..], e);
      InsertHead(s, e);
      r
  }

  lemma InsertHead(s: seq<Entry>, e: Entry)
    requires Sorted(s) && |s| > 0 && !EntryLess(e, s[0])
    decreases |s|, 0
    ensures (forall x :: x in s ==> x.member != e.member) ==> Sorted([s[0]] + Insert(s[1..], e))
    ensures (forall x :: x in s ==> x.member != e.member) && UniqueMembers(s) ==>
              UniqueMembers([s[0]] + Insert(s[1..], e))
  {
    if forall x :: x in s ==> x.member != e.member {
      assert e != s[0];
      if e.score == s[0].score {
        LexTotal(e.member, s[0].member);
      }
      assert EntryLess(s[0], e);
      var t := Insert(s[1..], e);
      assert Sorted(t);
      forall x | x in t ensures EntryLess(s[0], x) {
        if x != e {
          var k :| 0 <= k < |s[1..]| && s[1..][k] == x;
          assert s[k + 1] == x;
        }
      }
      var r := [s[0]] + t;
      forall i, j | 0 <= i < j < |r| ensures EntryLess(r[i], r[j]) {
        if i == 0 { assert r[j] in t; } else { assert r[i] == t[i - 1] && r[j] == t[j - 1]; }
      }
      if UniqueMembers(s) {
        assert UniqueMembers(s[1..]) by {
          forall i, j | 0 <= i < j < |s[1..]| ensures s[1..][i].member != s[1..][j].member {
            assert s[1..][i] == s[i + 1] && s[1..][j] == s[j + 1];
          }
        }
        forall x | x in t ensures x.member != s[0].member {
          if x != e {
            var k :| 0 <= k < |s[1..]| && s[1..][k] == x;
            assert s[k + 1] == x;
          }
        }
        forall i, j | 0 <= i < j < |r| ensures r[i].member != r[j].member {
          if i == 0 { assert r[j] in t; } else { assert r[i] == t[i - 1] && r[j] == t[j - 1]; }
        }
      }
    }
  }

  /** ZADD: the member's entry, replacing any earlier entry with the same member. */
  function ZAdd(s: seq<Entry>, e: Entry): (r: seq<Entry>)
    requires Valid(s)
    ensures Valid(r)
    ensures forall x :: x in r <==> x == e || (x in s && x.member != e.member)
  {
    Insert(Remove(s, e.member), e)
  }

  lemma EntryLessIrreflexive(x: Entry)
    ensures !EntryLess(x, x)
  {
    LexIrreflexive(x.member);
  }

  /** A sorted listing is determined by its entries. */
  lemma {:induction false} SortedExtensional(a: seq<Entry>, b: seq<Entry>)
    requires Sorted(a) && Sorted(b)
    requires forall x :: x in a <==> x in b
    ensures a == b
  {
    assert |a| > 0 ==> a[0] in b;
    assert |b| > 0 ==> b[0] in a;
    if |a| > 0 && |b| > 0 {
      SortedHead(a);
      SortedHead(b);
      if a[0] != b[0] {
        assert a[0] in b[1..] by { assert a[0] in b; assert b == [b[0]] + b[1..]; }
        assert b[0] in a[1..] by { assert b[0] in a; assert a == [a[0]] + a[1..]; }
        EntryLessTransitive(a[0], b[0], a[0]);
        EntryLessIrreflexive(a[0]);
      }
      assert a[0] == b[0];
      EntryLessIrreflexive(a[0]);
      assert Sorted(a[1..]) by {
        forall i, j | 0 <= i < j < |a[1..]| ensures EntryLess(a[1..][i], a[1..][j]) { assert a[1..][i] == a[i + 1]; }
      }
      assert Sorted(b[1..]) by {
        forall i, j | 0 <= i < j < |b[1..]| ensures EntryLess(b[1..][i], b[1..][j]) { assert b[1..][i] == b[i + 1]; }
      }
      forall x ensures x in a[1..] <==> x in b[1..] {
        assert a == [a[0]] + a[1..] && b == [b[0]] + b[1..];
        if x in a[1..] {
          assert EntryLess(a[0], x) && x != a[0];
          assert x in a;
          assert x in b;
        }
        if x in b[1..] {
          assert EntryLess(b[0], x) && x != b[0];
          assert x in b;
          assert x in a;
        }
      }
      SortedExtensional(a[1..], b[1..]);
      assert a == [a[0]] + a[1..] && b == [b[0]] + b[1..];
    }
  }

  /** Adding an entry that is already present changes nothing. */
  lemma ZAddPresent(s: seq<Entry>, e: Entry)
    requires Valid(s) && e in s
    ensures ZAdd(s, e) == s
  {
    var r := ZAdd(s, e);
    forall x ensures x in r <==> x in s {
      if x in s && x.member == e.member {
        var i :| 0 <= i < |s| && s[i] == x;
        var j :| 0 <= j < |s| && s[j] == e;
        assert i == j;
      }
    }
    SortedExtensional(r, s);
  }

  /** ZADD is idempotent. */
  lemma ZAddIdempotent(s: seq<Entry>, e: Entry)
    requires Valid(s)
    ensures ZAdd(ZAdd(s, e), e) == ZAdd(s, e)
  {
    ZAddPresent(ZAdd(s, e), e);
  }

  /** ZRANGEBYSCORE from to: the entries with from <= score <= to, in index order. */
  function RangeByScore(s: seq<Entry>, from: int, to: int): (r: seq<Entry>)
    ensures forall x :: x in r <==> x in s && from <= x.score <= to
    ensures from > to ==> r == []
    ensures Sorted(s) ==> Sorted(r)
    ensures UniqueMembers(s) ==> UniqueMembers(r)
  {
    if |s| == 0 then []
    else
      var rest := RangeByScore(s[1..], from, to);
      SortedHead(s);
      if from <= s[0].score <= to then [s[0]] + rest else rest
  }

  /** A sorted listing is ascending by score. */
  lemma SortedScores(s: seq<Entry>, i: int, j: int)
    requires Sorted(s) && 0 <= i <= j < |s|
    ensures s[i].score <= s[j].score
  {
    if i < j { assert EntryLess(s[i], s[j]); }
  }
}
