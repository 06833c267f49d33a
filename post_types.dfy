// The one entity of the board: a node (a top-level post or a comment),
// as stored and as sent over the wire (src/types/post.ts).

module PostTypes {

  datatype Option<+T> = None | Some(value: T)

  /** Node identifiers, in their text form. */
  type Id = string

  /** Timestamps are abstract instants; only their order matters. */
  type Instant = nat

  /** A node. `parentId == None` marks a root (a top-level post). */
  datatype Node = Node(id: Id, content: string, parentId: Option<Id>, createdAt: Instant, updatedAt: Instant)

  /** The ids that occur in a sequence of nodes. */
  function Ids(s: seq<Node>): set<Id>
  {
    set n | n in s :: n.id
  }

  /** No id occurs twice. */
  predicate DistinctIds(s: seq<Node>)
  {
    forall i, j :: 0 <= i < j < |s| ==> s[i].id != s[j].id
  }

  /** The position of the first node with id `x`. */
  function Pos(s: seq<Node>, x: Id): (i: nat)
    requires x in Ids(s)
    ensures i < |s| && s[i].id == x
    ensures forall k :: 0 <= k < i ==> s[k].id != x
  {
    if s[0].id == x then 0
    else
      assert x in Ids(s[1..]) by {
        var n :| n in s && n.id == x;
        assert n in s[1..] by {
          var j :| 0 <= j < |s| && s[j] == n;
          assert j != 0;
          assert s[1..][j - 1] == n;
        }
      }
      1 + Pos(s[1..], x)
  }

  /** The first node with id `x`, if any (a lookup by id). */
  function Find(s: seq<Node>, x: Id): (r: Option<Node>)
    ensures r.Some? <==> x in Ids(s)
    ensures r.Some? ==> r.value in s && r.value.id == x
  {
    if x in Ids(s) then Some(s[Pos(s, x)]) else None
  }

  /** A node appended under a new id is what a lookup of that id finds. */
  lemma FindAppended(s: seq<Node>, n: Node)
    requires n.id !in Ids(s)
    ensures Find(s + [n], n.id) == Some(n)
  {
    var t := s + [n];
    assert t[|s|] == n;
    forall k | 0 <= k < |s| ensures t[k].id != n.id {
      assert t[k] == s[k] && s[k] in s;
    }
  }

  /** With distinct ids, the node at `Pos` is the only one with that id. */
  lemma PosUnique(s: seq<Node>, i: nat)
    requires DistinctIds(s) && i < |s|
    ensures s[i].id in Ids(s) && Pos(s, s[i].id) == i
  {
    assert s[i] in s;
  }

  /** With distinct ids, a node occurs at most once. */
  lemma {:induction false} DistinctOnce(s: seq<Node>, e: Node)
    requires DistinctIds(s) && e in s
    ensures multiset(s)[e] == 1
  {
    assert s == [s[0]] + s[1..];
    if s[0] != e {
      DistinctOnce(s[1..], e);
    }
  }

  lemma IdsAppend(s: seq<Node>, t: seq<Node>)
    ensures Ids(s + t) == Ids(s) + Ids(t)
  {
    forall x | x in Ids(s + t) ensures x in Ids(s) + Ids(t) {
      var n :| n in s + t && n.id == x;
      assert n in s || n in t;
    }
  }

  /** Two id-disjoint sequences without repeated ids concatenate to one. */
  lemma DistinctConcat(s: seq<Node>, t: seq<Node>)
    requires DistinctIds(s) && DistinctIds(t)
    requires forall x, y :: x in s && y in t ==> x.id != y.id
    ensures DistinctIds(s + t)
  {
    var st := s + t;
    forall i, j | 0 <= i < j < |st| ensures st[i].id != st[j].id {
      if i < |s| && j >= |s| {
        assert st[i] in s && st[j] == t[j - |s|];
      } else if i >= |s| {
        assert st[i] == t[i - |s|] && st[j] == t[j - |s|];
      }
    }
  }

  /** A sequence holding each node at most as often as a sequence without
      repeated ids has no repeated ids either. */
  lemma SubmultisetDistinct(s: seq<Node>, r: seq<Node>)
    requires DistinctIds(s)
    requires forall n :: multiset(r)[n] <= multiset(s)[n]
    ensures DistinctIds(r)
  {
    forall i, j | 0 <= i < j < |r| ensures r[i].id != r[j].id {
      if r[i].id == r[j].id {
        assert r[i] in multiset(s) && r[j] in multiset(s);
        var a :| 0 <= a < |s| && s[a] == r[i];
        var b :| 0 <= b < |s| && s[b] == r[j];
        assert a == b;
        TwiceCounted(r, i, j);
        DistinctOnce(s, r[i]);
        assert false;
      }
    }
  }

  /** An element at two positions is counted at least twice. */
  lemma TwiceCounted(r: seq<Node>, i: nat, j: nat)
    requires i < j < |r| && r[i] == r[j]
    ensures multiset(r)[r[i]] >= 2
  {
    assert r == r[..j] + r[j..];
    assert r[i] in r[..j];
    assert r[j..][0] == r[j];
  }
}
