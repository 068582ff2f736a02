/**
 * The two store queries the handlers issue: `find().sort({ createdAt: -1 })` and
 * `findByIdAndDelete(id)`, over the collection seen as a sequence in insertion order.
 */
module SnippetStore {
  import opened Snippets

  /** The ids present in a collection. */
  function Ids(s: seq<Snippet>): set<Id> {
    set x | x in s :: x.id
  }

  /** No two documents share an `_id`. */
  predicate UniqueIds(s: seq<Snippet>) {
    forall i, j :: 0 <= i < j < |s| ==> s[i].id != s[j].id
  }

  /** Ordered by `createdAt`, newest first. */
  predicate IsNewestFirst(s: seq<Snippet>) {
    forall i, j :: 0 <= i < j < |s| ==> s[i].createdAt >= s[j].createdAt
  }

  /** Inserts `x` into a newest-first sequence, before the first element that is not newer. */
  function Insert(x: Snippet, s: seq<Snippet>): (r: seq<Snippet>)
    requires IsNewestFirst(s)
    ensures IsNewestFirst(r)
    ensures multiset(r) == multiset(s) + multiset{x}
  {
    if s == [] || x.createdAt >= s[0].createdAt then
      [x] + s
    else
      assert IsNewestFirst(s[1..]) by {
        forall i, j | 0 <= i < j < |s| - 1 ensures s[1..][i].createdAt >= s[1..][j].createdAt {
          assert s[1..][i] == s[i + 1] && s[1..][j] == s[j + 1];
        }
      }
      var tail := Insert(x, s[1..]);
      assert s == [s[0]] + s[1..];
      HeadBeforeOlder(s, x, tail);
      [s[0]] + tail
  }

  /**
   * Sorted `s` with `x` older than its head: the head, followed by a newest-first permutation
   * of the rest and `x`, is newest first.
   */
  lemma HeadBeforeOlder(s: seq<Snippet>, x: Snippet, tail: seq<Snippet>)
    requires s != [] && IsNewestFirst(s) && x.createdAt < s[0].createdAt
    requires IsNewestFirst(tail) && multiset(tail) == multiset(s[1..]) + multiset{x}
    ensures IsNewestFirst([s[0]] + tail)
  {
    forall i | 0 <= i < |tail| ensures tail[i].createdAt <= s[0].createdAt {
      assert tail[i] in multiset(tail);
      if tail[i] != x {
        assert tail[i] in multiset(s[1..]);
        var j :| 0 <= j < |s[1..]| && s[1..][j] == tail[i];
        assert s[j + 1] == tail[i];
      }
    }
    var r := [s[0]] + tail;
    forall i, j | 0 <= i < j < |r| ensures r[i].createdAt >= r[j].createdAt {
      if i == 0 { assert r[j] == tail[j - 1]; } else { assert r[i] == tail[i - 1] && r[j] == tail[j - 1]; }
    }
  }

  /** `find().sort({ createdAt: -1 })`: every document of the collection, newest first. */
  function SortNewestFirst(s: seq<Snippet>): (r: seq<Snippet>)
    ensures IsNewestFirst(r)
    ensures multiset(r) == multiset(s)
  {
    if s == [] then []
    else
      assert s == [s[0]] + s[1..];
      Insert(s[0], SortNewestFirst(s[1..]))
  }

  /** The newest document, when strictly newer than every other, comes first in the listing. */
  lemma NewestListedFirst(s: seq<Snippet>, x: Snippet)
    requires x in s
    requires forall y :: y in s && y != x ==> y.createdAt < x.createdAt
    ensures SortNewestFirst(s) != [] && SortNewestFirst(s)[0] == x
  {
    var r := SortNewestFirst(s);
    assert x in multiset(r);
    var k :| 0 <= k < |r| && r[k] == x;
    assert r[0] in multiset(s);
  }

  /** `findByIdAndDelete(id)`: removes the first document with that id, if there is one. */
  function RemoveById(s: seq<Snippet>, id: Id): (r: seq<Snippet>)
    ensures id !in Ids(s) ==> r == s
    ensures id in Ids(s) ==> |r| == |s| - 1
    ensures forall x :: x in r ==> x in s
  {
    if s == [] then []
    else if s[0].id == id then s[1..]
    else
      assert s == [s[0]] + s[1..];
      IdsCons(s[0], s[1..]);
      [s[0]] + RemoveById(s[1..], id)
  }

  /**
   * Removing by id cuts out exactly the first document with that id and keeps every other
   * document in its relative order.
   */
  lemma {:induction false} RemoveByIdAt(s: seq<Snippet>, id: Id, k: nat)
    requires k < |s| && s[k].id == id
    requires forall j :: 0 <= j < k ==> s[j].id != id
    ensures RemoveById(s, id) == s[..k] + s[k + 1..]
  {
    if k > 0 {
      var rest := s[1..];
      assert rest[k - 1].id == id;
      RemoveByIdAt(rest, id, k - 1);
      assert RemoveById(s, id) == [s[0]] + RemoveById(rest, id);
      assert s[..k] == [s[0]] + rest[..k - 1];
      assert s[k + 1..] == rest[k..];
    }
  }

  /** The ids of a sequence with a first element: that element's id and the ids of the rest. */
  lemma IdsCons(x: Snippet, s: seq<Snippet>)
    ensures Ids([x] + s) == {x.id} + Ids(s)
  {
  }

  /** A sequence with a first element has unique ids when the rest does and lacks that element's id. */
  lemma UniqueCons(x: Snippet, s: seq<Snippet>)
    requires UniqueIds(s) && x.id !in Ids(s)
    ensures UniqueIds([x] + s)
  {
  }

  /** With unique ids, removing one id leaves unique ids and every other id, and not that one. */
  lemma {:induction false} RemoveByIdUnique(s: seq<Snippet>, id: Id)
    requires UniqueIds(s)
    ensures UniqueIds(RemoveById(s, id))
    ensures Ids(RemoveById(s, id)) == Ids(s) - {id}
  {
    if s != [] {
      var rest := s[1..];
      assert s == [s[0]] + rest;
      IdsCons(s[0], rest);
      assert UniqueIds(rest) by {
        forall i, j | 0 <= i < j < |rest| ensures rest[i].id != rest[j].id {
          assert rest[i] == s[i + 1] && rest[j] == s[j + 1];
        }
      }
      RemoveByIdUnique(rest, id);
      if s[0].id != id {
        var r := RemoveById(rest, id);
        IdsCons(s[0], r);
        UniqueCons(s[0], r);
      }
    }
  }
}
