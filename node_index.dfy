// Keyed collections with insertion order, as the clients use them: the
// `byId` record of the tree builder (web/src/App.tsx:23-25) and the `Map`
// of the initial load (web/src/App.tsx:48-54). Setting an existing key
// replaces its value where it stands; a new key goes at the end; reading the
// values gives them in the order their keys were first set.

module NodeIndex {
  import opened PostTypes

  // Sequence identities, kept apart from the map terms they are used beside.

  lemma SplitLast(s: seq<Node>)
    requires s != []
    ensures s == s[..|s| - 1] + [s[|s| - 1]]
  {
  }

  lemma DropLastOfConcat(a: seq<Node>, b: seq<Node>)
    requires b != []
    ensures (a + b)[..|a + b| - 1] == a + b[..|b| - 1] && (a + b)[|a + b| - 1] == b[|b| - 1]
  {
  }

  /** `m.set(n.id, n)`, with `entries` the values of `m` in key order. */
  function Put(entries: seq<Node>, n: Node): (r: seq<Node>)
    requires DistinctIds(entries)
    ensures DistinctIds(r)
    ensures Ids(r) == Ids(entries) + {n.id}
    ensures n in r
    ensures forall m :: m in r ==> m == n || (m in entries && m.id != n.id)
    ensures forall m :: m in entries && m.id != n.id ==> m in r
  {
    if n.id in Ids(entries) then
      var k := Pos(entries, n.id);
      var r := entries[k := n];
      assert r[k] == n;
      assert forall j :: 0 <= j < |entries| && j != k ==> r[j] == entries[j] && entries[j].id != n.id;
      assert forall m :: m in entries && m.id != n.id ==> m in r by {
        forall m | m in entries && m.id != n.id ensures m in r {
          var j :| 0 <= j < |entries| && entries[j] == m;
          assert r[j] == m;
        }
      }
      assert Ids(r) == Ids(entries) by {
        forall x | x in Ids(entries) ensures x in Ids(r) {
          var m :| m in entries && m.id == x;
          if m.id == n.id { assert n in r; } else { assert m in r; }
        }
        forall x | x in Ids(r) ensures x in Ids(entries) {
          var m :| m in r && m.id == x;
          var j :| 0 <= j < |r| && r[j] == m;
          if j == k { assert entries[k].id == x; assert entries[k] in entries; }
          else { assert entries[j] in entries; }
        }
      }
      r
    else
      IdsAppend(entries, [n]);
      assert Ids([n]) == {n.id};
      entries + [n]
  }

  /** Setting a present key keeps every key where it was. */
  lemma PutPresent(entries: seq<Node>, n: Node)
    requires DistinctIds(entries) && n.id in Ids(entries)
    ensures |Put(entries, n)| == |entries|
    ensures forall i :: 0 <= i < |entries| ==> Put(entries, n)[i].id == entries[i].id
  {
  }

  /** Setting a new key appends it. */
  lemma PutAbsent(entries: seq<Node>, n: Node)
    requires DistinctIds(entries) && n.id !in Ids(entries)
    ensures Put(entries, n) == entries + [n]
  {
  }

  /** No later element of `s` has the id of `s[i]`. */
  predicate LastOfItsId(s: seq<Node>, i: nat)
    requires i < |s|
  {
    forall j :: i < j < |s| ==> s[j].id != s[i].id
  }

  /** The values after setting every element of `s`, in order: one entry per
      id of `s` (see IndexValues for which element survives). */
  function Index(s: seq<Node>): (r: seq<Node>)
    ensures DistinctIds(r)
    ensures Ids(r) == Ids(s)
  {
    if s == [] then []
    else
      var init, x := s[..|s| - 1], s[|s| - 1];
      SplitLast(s);
      IdsAppend(init, [x]);
      assert Ids([x]) == {x.id};
      Put(Index(init), x)
  }

  /** Every entry is an element of the input, and the element that survives
      for an id is the last one given for it. */
  lemma {:induction false} IndexValues(s: seq<Node>)
    ensures forall m :: m in Index(s) ==> m in s
    ensures forall i :: 0 <= i < |s| && LastOfItsId(s, i) ==> s[i] in Index(s)
  {
    if s != [] {
      var init, x := s[..|s| - 1], s[|s| - 1];
      assert s == init + [x];
      IndexValues(init);
      assert Index(s) == Put(Index(init), x);
      assert forall i :: 0 <= i < |init| && LastOfItsId(s, i) ==> LastOfItsId(init, i) && s[i].id != x.id;
    }
  }

  /** The first position of an id does not move when elements are added after it. */
  lemma PosSnoc(s: seq<Node>, x: Node, y: Id)
    requires y in Ids(s)
    ensures y in Ids(s + [x]) && Pos(s + [x], y) == Pos(s, y)
  {
    IdsAppend(s, [x]);
    var p := Pos(s, y);
    assert (s + [x])[p] == s[p];
  }

  /** Entries appear in the order in which their ids first occur in the input. */
  lemma {:induction false} IndexOrder(s: seq<Node>, i: nat, j: nat)
    requires i < j < |Index(s)|
    ensures Index(s)[i].id in Ids(s) && Index(s)[j].id in Ids(s)
    ensures Pos(s, Index(s)[i].id) < Pos(s, Index(s)[j].id)
  {
    var init, x := s[..|s| - 1], s[|s| - 1];
    SplitLast(s);
    var e := Index(init);
    assert Index(s) == Put(e, x);
    if x.id in Ids(e) {
      PutPresent(e, x);
      IndexOrder(init, i, j);
      OrderKept(init, x, e[i].id, e[j].id);
    } else {
      PutAbsent(e, x);
      if j < |e| {
        IndexOrder(init, i, j);
        OrderKept(init, x, e[i].id, e[j].id);
      } else {
        assert e[i] in e;
        NewIdLast(init, x, e[i].id);
      }
    }
  }

  lemma OrderKept(init: seq<Node>, x: Node, a: Id, b: Id)
    requires a in Ids(init) && b in Ids(init) && Pos(init, a) < Pos(init, b)
    ensures a in Ids(init + [x]) && b in Ids(init + [x])
    ensures Pos(init + [x], a) < Pos(init + [x], b)
  {
    PosSnoc(init, x, a);
    PosSnoc(init, x, b);
  }

  lemma NewIdLast(init: seq<Node>, x: Node, a: Id)
    requires a in Ids(init) && x.id !in Ids(init)
    ensures a in Ids(init + [x]) && x.id in Ids(init + [x])
    ensures Pos(init + [x], a) < Pos(init + [x], x.id)
  {
    PosSnoc(init, x, a);
    IdsAppend(init, [x]);
    assert x in [x];
  }

  /** The values after setting every element of `s`, in order, on a map whose
      values are `m`. */
  function IndexFrom(m: seq<Node>, s: seq<Node>): (r: seq<Node>)
    requires DistinctIds(m)
    ensures DistinctIds(r)
  {
    if s == [] then m else Put(IndexFrom(m, s[..|s| - 1]), s[|s| - 1])
  }

  /** Setting `b` on the map built from `a` is building from `a + b`. */
  lemma {:induction false} IndexFromIndex(a: seq<Node>, b: seq<Node>)
    ensures IndexFrom(Index(a), b) == Index(a + b)
  {
    if b == [] {
      assert a + b == a;
    } else {
      var init, y := b[..|b| - 1], b[|b| - 1];
      IndexFromIndex(a, init);
      DropLastOfConcat(a, b);
    }
  }

  /** `for (const d of s) m.set(d.id, d)`. */
  method SetEach(m: seq<Node>, s: seq<Node>) returns (r: seq<Node>)
    requires DistinctIds(m)
    ensures r == IndexFrom(m, s)
  {
    r := m;
    var i := 0;
    while i < |s|
      invariant i <= |s|
      invariant r == IndexFrom(m, s[..i])
    {
      assert s[..i + 1][..i] == s[..i];
      r := Put(r, s[i]);
      i := i + 1;
    }
    assert s[..|s|] == s;
  }

  /** A sequence without repeated ids indexes to itself. */
  lemma {:induction false} IndexOfDistinct(s: seq<Node>)
    requires DistinctIds(s)
    ensures Index(s) == s
  {
    if s != [] {
      var init, x := s[..|s| - 1], s[|s| - 1];
      assert s == init + [x];
      IndexOfDistinct(init);
      forall m | m in init ensures m.id != x.id {
        var k :| 0 <= k < |init| && init[k] == m;
        assert s[k] == m;
      }
      PutAbsent(init, x);
    }
  }

  /** Setting keys that `a` does not hold leaves the entries of `a` first, in order. */
  lemma {:induction false} IndexKeepsPrefix(a: seq<Node>, b: seq<Node>)
    requires DistinctIds(a)
    requires forall y :: y in b ==> y.id !in Ids(a)
    ensures |a| <= |Index(a + b)| && Index(a + b)[..|a|] == a
  {
    if b == [] {
      assert a + b == a;
      IndexOfDistinct(a);
    } else {
      var init, y := b[..|b| - 1], b[|b| - 1];
      SplitLast(b);
      DropLastOfConcat(a, b);
      IndexKeepsPrefix(a, init);
      var e := Index(a + init);
      assert Index(a + b) == Put(e, y);
      assert y in b;
      if y.id in Ids(e) {
        var k := Pos(e, y.id);
        forall j | 0 <= j < |a| ensures e[j].id != y.id {
          assert e[..|a|][j] == e[j];
          assert a[j] in a;
        }
        assert Put(e, y) == e[k := y];
      } else {
        PutAbsent(e, y);
      }
    }
  }
}
