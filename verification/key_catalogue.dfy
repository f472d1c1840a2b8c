/** The key catalogue (`getKeys`): one entry per distinct key labelling a truthy leaf,
    in the order keys are first visited, with the number of leaves under that key. */
module KeyCatalogue {
  import opened JsonTree
  import opened TreeWalk

  /** A catalogue entry; `checked` is the user's selection and starts unset. */
  datatype KeyStat = KeyStat(key: string, count: nat, checked: bool)

  /** Number of occurrences of `x` in `s` (`keyArray.filter(item => item === key).length`). */
  function Count(s: seq<string>, x: string): nat
    decreases |s|
  {
    if s == [] then 0 else Count(s[..|s| - 1], x) + (if s[|s| - 1] == x then 1 else 0)
  }

  predicate Distinct(s: seq<string>) {
    forall i, j :: 0 <= i < j < |s| ==> s[i] != s[j]
  }

  /** `Array.from(new Set(s))`: each element once, in order of first insertion. */
  function Unique(s: seq<string>): (d: seq<string>)
    ensures Distinct(d)
    ensures forall x :: x in d <==> x in s
    decreases |s|
  {
    if s == [] then []
    else
      var d := Unique(s[..|s| - 1]);
      var x := s[|s| - 1];
      if x in d then d else d + [x]
  }

  /** Every occurrence of a later element of `d` is preceded in `s` by an occurrence of
      each earlier element: `d` lists the elements of `s` in first-visit order. */
  predicate FirstVisitOrder(s: seq<string>, d: seq<string>) {
    forall i, j, k :: 0 <= i < j < |d| && 0 <= k < |s| && s[k] == d[j] ==> d[i] in s[..k]
  }

  lemma {:induction false} UniqueKeepsFirstVisitOrder(s: seq<string>)
    ensures FirstVisitOrder(s, Unique(s))
    decreases |s|
  {
    if s != [] {
      var p := s[..|s| - 1];
      var x := s[|s| - 1];
      var dp := Unique(p);
      UniqueKeepsFirstVisitOrder(p);
      var d := Unique(s);
      forall i, j, k | 0 <= i < j < |d| && 0 <= k < |s| && s[k] == d[j]
        ensures d[i] in s[..k]
      {
        assert s[..k] == if k < |p| then p[..k] else p;
        if x in dp {
          assert d == dp;
          if k < |p| {
            assert p[k] == dp[j];
          } else {
            var k' :| 0 <= k' < |p| && p[k'] == x;
            assert p[..k'] <= p;
          }
        } else if j < |dp| {
          assert dp[j] in p;
          assert k < |p| && p[k] == dp[j];
        } else {
          assert dp[i] in p;
        }
      }
    }
  }

  /** Sum of `Count(s, y)` over the elements `y` of `d`. */
  function TotalCount(s: seq<string>, d: seq<string>): nat
    decreases |d|
  {
    if d == [] then 0 else Count(s, d[0]) + TotalCount(s, d[1..])
  }

  /** Number of positions of `d` that hold `x`. */
  function Hits(d: seq<string>, x: string): nat
    decreases |d|
  {
    if d == [] then 0 else (if d[0] == x then 1 else 0) + Hits(d[1..], x)
  }

  lemma {:induction false} HitsOfDistinct(d: seq<string>, x: string)
    requires Distinct(d)
    ensures Hits(d, x) == (if x in d then 1 else 0)
    decreases |d|
  {
    if d != [] {
      HitsOfDistinct(d[1..], x);
      if d[0] == x {
        assert x !in d[1..] by {
          forall k | 0 <= k < |d[1..]| ensures d[1..][k] != x { assert d[k + 1] != d[0]; }
        }
      }
    }
  }

  lemma {:induction false} TotalCountSnoc(p: seq<string>, x: string, d: seq<string>)
    ensures TotalCount(p + [x], d) == TotalCount(p, d) + Hits(d, x)
    decreases |d|
  {
    var s := p + [x];
    assert s[..|s| - 1] == p;
    if d != [] {
      TotalCountSnoc(p, x, d[1..]);
    }
  }

  lemma {:induction false} TotalCountOfCover(s: seq<string>, d: seq<string>)
    requires Distinct(d)
    requires forall x :: x in s ==> x in d
    ensures TotalCount(s, d) == |s|
    decreases |s|
  {
    if s == [] {
      ZeroTotal(d);
    } else {
      var p := s[..|s| - 1];
      var x := s[|s| - 1];
      assert s == p + [x];
      TotalCountOfCover(p, d);
      TotalCountSnoc(p, x, d);
      HitsOfDistinct(d, x);
    }
  }

  lemma {:induction false} ZeroTotal(d: seq<string>)
    ensures TotalCount([], d) == 0
    decreases |d|
  {
    if d != [] {
      ZeroTotal(d[1..]);
    }
  }

  /** The catalogue of a document. */
  function GetKeys(doc: Json): (stats: seq<KeyStat>)
    ensures var keys := KeysOf(DocumentLeaves(doc));
      && |stats| == |Unique(keys)|
      && (forall i :: 0 <= i < |stats| ==> stats[i].key == Unique(keys)[i])
      && (forall i :: 0 <= i < |stats| ==> stats[i].count == Count(keys, stats[i].key))
      && (forall i :: 0 <= i < |stats| ==> !stats[i].checked)
  {
    var keys := KeysOf(DocumentLeaves(doc));
    var d := Unique(keys);
    seq(|d|, i requires 0 <= i < |d| => KeyStat(d[i], Count(keys, d[i]), false))
  }

  function SumCounts(stats: seq<KeyStat>): nat
    decreases |stats|
  {
    if stats == [] then 0 else stats[0].count + SumCounts(stats[1..])
  }

  function KeysOfStats(stats: seq<KeyStat>): (ks: seq<string>)
    ensures |ks| == |stats|
    ensures forall i :: 0 <= i < |stats| ==> ks[i] == stats[i].key
  {
    if stats == [] then [] else [stats[0].key] + KeysOfStats(stats[1..])
  }

  lemma {:induction false} SumCountsIsTotal(stats: seq<KeyStat>, s: seq<string>)
    requires forall i :: 0 <= i < |stats| ==> stats[i].count == Count(s, stats[i].key)
    ensures SumCounts(stats) == TotalCount(s, KeysOfStats(stats))
    decreases |stats|
  {
    if stats != [] {
      SumCountsIsTotal(stats[1..], s);
      assert KeysOfStats(stats)[1..] == KeysOfStats(stats[1..]);
    }
  }

  /** The catalogue's entries are exactly the distinct keys of truthy leaves, in
      first-visit order, every entry counts at least one leaf, and the counts add up to
      the number of truthy leaves of the document. */
  lemma CatalogueIsFaithful(doc: Json)
    ensures var stats := GetKeys(doc);
      var leaves := DocumentLeaves(doc);
      && Distinct(KeysOfStats(stats))
      && (forall k :: k in KeysOfStats(stats) <==> exists i :: 0 <= i < |leaves| && leaves[i].key == k)
      && FirstVisitOrder(KeysOf(leaves), KeysOfStats(stats))
      && (forall i :: 0 <= i < |stats| ==> stats[i].count >= 1)
      && SumCounts(stats) == |leaves|
  {
    CatalogueListsLeafKeys(doc);
    CatalogueCountsLeaves(doc);
  }

  /** The catalogue's keys are the distinct keys of the truthy leaves, in first-visit order. */
  lemma CatalogueListsLeafKeys(doc: Json)
    ensures var stats := GetKeys(doc);
      var leaves := DocumentLeaves(doc);
      && Distinct(KeysOfStats(stats))
      && (forall k :: k in KeysOfStats(stats) <==> exists i :: 0 <= i < |leaves| && leaves[i].key == k)
      && FirstVisitOrder(KeysOf(leaves), KeysOfStats(stats))
  {
    var stats := GetKeys(doc);
    var leaves := DocumentLeaves(doc);
    var keys := KeysOf(leaves);
    assert KeysOfStats(stats) == Unique(keys);
    UniqueKeepsFirstVisitOrder(keys);
    forall k | k in keys ensures exists i :: 0 <= i < |leaves| && leaves[i].key == k {
      var i :| 0 <= i < |keys| && keys[i] == k;
      assert leaves[i].key == k;
    }
    forall k | exists i :: 0 <= i < |leaves| && leaves[i].key == k ensures k in keys {
      var i :| 0 <= i < |leaves| && leaves[i].key == k;
      assert keys[i] == k;
    }
  }

  /** Every catalogue entry counts at least one leaf and the counts add up to the number of
      truthy leaves. */
  lemma CatalogueCountsLeaves(doc: Json)
    ensures var stats := GetKeys(doc);
      && (forall i :: 0 <= i < |stats| ==> stats[i].count >= 1)
      && SumCounts(stats) == |DocumentLeaves(doc)|
  {
    var stats := GetKeys(doc);
    var keys := KeysOf(DocumentLeaves(doc));
    assert KeysOfStats(stats) == Unique(keys);
    SumCountsIsTotal(stats, keys);
    TotalCountOfCover(keys, Unique(keys));
    forall i | 0 <= i < |stats| ensures stats[i].count >= 1 {
      assert stats[i].key in keys;
      CountOfMember(keys, stats[i].key);
    }
  }

  lemma {:induction false} CountOfMember(s: seq<string>, x: string)
    requires x in s
    ensures Count(s, x) >= 1
    decreases |s|
  {
    if s[|s| - 1] != x {
      var p := s[..|s| - 1];
      var k :| 0 <= k < |s| && s[k] == x;
      assert p[k] == x;
      CountOfMember(p, x);
    }
  }
}
