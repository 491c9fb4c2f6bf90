/** The order `sort` puts string ids in: lexicographic on bytes. */
module IdOrder {
  import opened Bytes
  import opened Utf8

  predicate Less(a: seq<byte>, b: seq<byte>)
    decreases |a|
  {
    if b == [] then false
    else if a == [] then true
    else a[0] < b[0] || (a[0] == b[0] && Less(a[1..], b[1..]))
  }

  /** Two sequences agree before `k`, and at `k` the first one ends or has the smaller byte. */
  predicate SmallerAt(a: seq<byte>, b: seq<byte>, k: nat) {
    k <= |a| && k < |b| && a[..k] == b[..k] && (k == |a| || a[k] < b[k])
  }

  /** The order is by the first difference, and a proper prefix comes first. */
  lemma {:induction false} LessByFirstDifference(a: seq<byte>, b: seq<byte>)
    ensures Less(a, b) <==> exists k: nat :: SmallerAt(a, b, k)
    decreases |a|
  {
    if a != [] && b != [] && a[0] == b[0] {
      LessByFirstDifference(a[1..], b[1..]);
      forall k: nat | SmallerAt(a[1..], b[1..], k)
        ensures SmallerAt(a, b, k + 1)
      {
        assert a[..k + 1] == [a[0]] + a[1..][..k] && b[..k + 1] == [b[0]] + b[1..][..k];
      }
      forall k: nat | SmallerAt(a, b, k)
        ensures k > 0 && SmallerAt(a[1..], b[1..], k - 1)
      {
        assert a[1..][..k - 1] == a[..k][1..] && b[1..][..k - 1] == b[..k][1..];
      }
    } else if b != [] {
      assert SmallerAt(a, b, 0) <==> Less(a, b);
      forall k: nat | SmallerAt(a, b, k)
        ensures k == 0
      {
        if k > 0 {
          SameFirst(a, b, k);
        }
      }
    }
  }

  lemma SameFirst(a: seq<byte>, b: seq<byte>, k: nat)
    requires SmallerAt(a, b, k) && k > 0
    ensures a != [] && b != [] && a[0] == b[0]
  {
    assert a[..k][0] == b[..k][0];
  }

  lemma {:induction false} LessIrreflexive(a: seq<byte>)
    ensures !Less(a, a)
  {
    if a != [] {
      LessIrreflexive(a[1..]);
    }
  }

  lemma {:induction false} LessTotal(a: seq<byte>, b: seq<byte>)
    ensures Less(a, b) || a == b || Less(b, a)
    decreases |a|
  {
    if a != [] && b != [] && a[0] == b[0] {
      LessTotal(a[1..], b[1..]);
      assert a == [a[0]] + a[1..] && b == [b[0]] + b[1..];
    }
  }

  lemma {:induction false} LessTransitive(a: seq<byte>, b: seq<byte>, c: seq<byte>)
    requires Less(a, b) && Less(b, c)
    ensures Less(a, c)
    decreases |a|
  {
    if a != [] && a[0] == b[0] == c[0] {
      LessTransitive(a[1..], b[1..], c[1..]);
    }
  }

  /** Strictly ascending, so without repetition. */
  predicate Ascending(ids: seq<Str>) {
    forall i, j :: 0 <= i < j < |ids| ==> Less(ids[i], ids[j])
  }

  ghost predicate Lists(ids: seq<Str>, keys: set<Str>) {
    Ascending(ids) && forall k :: k in keys <==> k in ids
  }

  function Insert(k: Str, ids: seq<Str>): (r: seq<Str>)
    ensures forall x :: x in r <==> x == k || x in ids
  {
    if ids == [] then [k]
    else if Less(k, ids[0]) then [k] + ids
    else
      var r := Insert(k, ids[1..]);
      assert ids == [ids[0]] + ids[1..];
      [ids[0]] + r
  }

  lemma {:induction false} InsertAscending(k: Str, ids: seq<Str>)
    requires Ascending(ids) && k !in ids
    ensures Ascending(Insert(k, ids))
  {
    hide Less;
    if ids != [] {
      if Less(k, ids[0]) {
        forall j | 0 <= j < |ids|
          ensures Less(k, ids[j])
        {
          if j > 0 {
            LessTransitive(k, ids[0], ids[j]);
          }
        }
      } else {
        var rest := ids[1..];
        InsertAscending(k, rest);
        LessTotal(k, ids[0]);
        var r := Insert(k, rest);
        forall j | 0 <= j < |r|
          ensures Less(ids[0], r[j])
        {
          assert r[j] in r;
          if r[j] != k {
            var i :| 0 <= i < |rest| && rest[i] == r[j];
            assert ids[i + 1] == r[j];
          }
        }
        assert Insert(k, ids) == [ids[0]] + r;
      }
    }
  }

  /** A set of ids has only one ascending listing: the result of sorting cannot depend on the order before. */
  lemma {:induction false} ListingUnique(ids: seq<Str>, ids': seq<Str>, keys: set<Str>)
    requires Lists(ids, keys) && Lists(ids', keys)
    ensures ids == ids'
    decreases |ids|
  {
    hide Less;
    assert ids' != [] ==> ids'[0] in ids';
    assert ids != [] ==> ids[0] in ids;
    if ids != [] {
      SameHead(ids, ids', keys);
      TailLists(ids, keys);
      TailLists(ids', keys);
      ListingUnique(ids[1..], ids'[1..], keys - {ids[0]});
      assert ids == [ids[0]] + ids[1..] && ids' == [ids'[0]] + ids'[1..];
    }
  }

  lemma SameHead(ids: seq<Str>, ids': seq<Str>, keys: set<Str>)
    requires Lists(ids, keys) && Lists(ids', keys) && ids != [] && ids' != []
    ensures ids[0] == ids'[0]
  {
    hide Less;
    assert ids[0] in ids' && ids'[0] in ids;
    var i :| 0 <= i < |ids'| && ids'[i] == ids[0];
    var j :| 0 <= j < |ids| && ids[j] == ids'[0];
    if i > 0 && j > 0 {
      LessTransitive(ids[0], ids[j], ids[0]);
      LessIrreflexive(ids[0]);
      assert false;
    }
  }

  lemma TailLists(ids: seq<Str>, keys: set<Str>)
    requires Lists(ids, keys) && ids != []
    ensures Lists(ids[1..], keys - {ids[0]})
  {
    hide Less;
    var tail := ids[1..];
    assert ids == [ids[0]] + tail;
    forall k
      ensures k in keys - {ids[0]} <==> k in tail
    {
      if k in tail {
        var i :| 0 <= i < |tail| && tail[i] == k;
        assert Less(ids[0], ids[i + 1]);
        LessIrreflexive(ids[0]);
      }
    }
  }

  /** The ids of a set in ascending order. */
  ghost function Sorted(keys: set<Str>): (ids: seq<Str>)
    ensures Lists(ids, keys)
  {
    if keys == {} then []
    else
      var k :| k in keys;
      var rest := Sorted(keys - {k});
      InsertAscending(k, rest);
      Insert(k, rest)
  }

  /** Collecting a map's keys in whatever order it gives them, then sorting. */
  method SortIds(keys: set<Str>) returns (ids: seq<Str>)
    ensures ids == Sorted(keys)
  {
    hide Less, Sorted;
    ids := [];
    var left := keys;
    while left != {}
      invariant left <= keys && Lists(ids, keys - left)
      decreases left
    {
      var k :| k in left;
      InsertAscending(k, ids);
      ids := Insert(k, ids);
      left := left - {k};
    }
    assert keys - left == keys;
    ListingUnique(ids, Sorted(keys), keys);
  }
}
