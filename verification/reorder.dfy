/** Drag-and-drop reordering. When a drag ends, the program rebuilds the
    collection from the ids of the rows on screen, in on-screen order. The
    rows on screen are the current view, which the search box and the filter
    dropdowns may have narrowed; every task the view hides is then lost.
    `Reorder` models the program as written, `ReorderKeepingHidden` the
    evident intent: hidden tasks survive, after the reordered ones. */
module DragReorder {
  import opened Wrappers
  import opened Seqs
  import opened Tasks
  import opened Query

  /** The tasks whose ids are not in `ids`. */
  function NotListed(ids: seq<string>): Task -> bool {
    (t: Task) => t.id !in ids
  }

  /** The `dragend` handler: for each id in screen order, the first task with
      that id (`find`); an id with no task is skipped. The result replaces the
      whole collection. */
  function Reorder(s: seq<Task>, ids: seq<string>): (r: seq<Task>)
    ensures |r| <= |ids|
    ensures forall t :: t in r ==> t in s && t.id in ids && FindById(s, t.id) == Some(t)
  {
    if |ids| == 0 then []
    else
      var rest := Reorder(s, ids[1..]);
      match FindById(s, ids[0])
      case Some(t) => [t] + rest
      case None => rest
  }

  /** The ids that name some task of `s`. */
  function Known(s: seq<Task>): string -> bool {
    (id: string) => id in IdsOf(s)
  }

  /** The rebuilt collection follows the on-screen order: its ids are the
      listed ids that name a task, in list order. With the first-match clause
      of `Reorder` this determines the result. */
  lemma {:induction false} ReorderOrder(s: seq<Task>, ids: seq<string>)
    ensures IdsOf(Reorder(s, ids)) == Keep(ids, Known(s))
    decreases |ids|
  {
    if |ids| > 0 {
      ReorderOrder(s, ids[1..]);
      var rest := Reorder(s, ids[1..]);
      match FindById(s, ids[0])
      case Some(t) =>
        assert Reorder(s, ids) == [t] + rest;
        assert IdsOf([t] + rest) == [t.id] + IdsOf(rest) by {
          assert ([t] + rest)[1..] == rest;
        }
      case None =>
        assert Reorder(s, ids) == rest;
    }
  }

  /** Every listed id that names a task brings in the first task with it. */
  lemma {:induction false} ReorderIncludes(s: seq<Task>, ids: seq<string>, t: Task)
    requires t.id in ids && FindById(s, t.id) == Some(t)
    ensures t in Reorder(s, ids)
    decreases |ids|
  {
    if ids[0] != t.id {
      ReorderIncludes(s, ids[1..], t);
    }
  }

  /** Reordering only looks tasks up by id, so two collections that answer
      every listed id alike give the same result. */
  lemma {:induction false} ReorderAgrees(s: seq<Task>, s2: seq<Task>, ids: seq<string>)
    requires forall id :: id in ids ==> FindById(s, id) == FindById(s2, id)
    ensures Reorder(s, ids) == Reorder(s2, ids)
    decreases |ids|
  {
    if |ids| > 0 {
      ReorderAgrees(s, s2, ids[1..]);
    }
  }

  /** The tasks the listed ids do not reach, in collection order. */
  function Unlisted(s: seq<Task>, ids: seq<string>): (r: seq<Task>)
    ensures forall t :: multiset(r)[t] == if t.id in ids then 0 else multiset(s)[t]
    ensures IsSubseq(r, s)
  {
    KeepSubseq(s, NotListed(ids));
    Keep(s, NotListed(ids))
  }

  /** With unique ids and distinct listed ids that all name tasks, the
      reordered tasks and the unlisted ones together are the collection. */
  lemma {:induction false} ReorderPlusUnlisted(s: seq<Task>, ids: seq<string>)
    requires UniqueIds(s) && Distinct(ids)
    requires forall id :: id in ids ==> id in IdsOf(s)
    ensures multiset(Reorder(s, ids)) + multiset(Unlisted(s, ids)) == multiset(s)
    decreases |ids|
  {
    if |ids| == 0 {
      assert Unlisted(s, ids) == s by {
        KeepAll(s, NotListed(ids));
      }
    } else {
      assert ids[0] in IdsOf(s);
      var x := FindById(s, ids[0]).value;
      var i :| 0 <= i < |s| && s[i] == x;
      var s' := s[..i] + s[i + 1..];
      MultisetRemoveAt(s, i);
      DistinctTail(ids);
      RemoveListed(s, ids, x, s');
      ReorderPlusUnlisted(s', ids[1..]);
      PlusUnlistedStep(s, ids, x, s');
    }
  }

  /** The inductive step of `ReorderPlusUnlisted`, with `s'` the collection
      less the task `x` of the first listed id. */
  lemma PlusUnlistedStep(s: seq<Task>, ids: seq<string>, x: Task, s': seq<Task>)
    requires UniqueIds(s) && |ids| > 0 && ids[0] !in ids[1..]
    requires FindById(s, ids[0]) == Some(x)
    requires multiset(s') == multiset(s) - multiset{x}
    ensures (forall id :: id in ids[1..] ==> FindById(s, id) == FindById(s', id))
      && multiset(Reorder(s', ids[1..])) + multiset(Unlisted(s', ids[1..])) == multiset(s')
      ==> multiset(Reorder(s, ids)) + multiset(Unlisted(s, ids)) == multiset(s)
  {
    if forall id :: id in ids[1..] ==> FindById(s, id) == FindById(s', id) {
      var rest := Reorder(s', ids[1..]);
      assert Reorder(s, ids) == [x] + rest by {
        ReorderAgrees(s, s', ids[1..]);
      }
      assert multiset(Reorder(s, ids)) == multiset{x} + multiset(rest);
      UnlistedStep(s, ids, s', x);
      assert x in s by {
        FindMember(s, ids[0]);
      }
      if multiset(rest) + multiset(Unlisted(s', ids[1..])) == multiset(s') {
        PutBack(x, multiset(s), multiset(rest), multiset(Unlisted(s', ids[1..])));
      }
    }
  }

  /** Removing the task of the first listed id keeps ids unique and leaves
      the other listed ids naming the same tasks. */
  lemma RemoveListed(s: seq<Task>, ids: seq<string>, x: Task, s': seq<Task>)
    requires UniqueIds(s) && |ids| > 0 && ids[0] !in ids[1..]
    requires forall id :: id in ids ==> id in IdsOf(s)
    requires x in s && x.id == ids[0]
    requires multiset(s') == multiset(s) - multiset{x}
    ensures UniqueIds(s')
    ensures forall id :: id in ids[1..] ==> id in IdsOf(s') && FindById(s, id) == FindById(s', id)
  {
    UniqueIdsSubMultiset(s', s);
    forall id | id in ids[1..]
      ensures id in IdsOf(s') && FindById(s, id) == FindById(s', id)
    {
      var u := FindById(s, id).value;
      assert u != x;
      assert u in s';
      MemberIdListed(s', u);
      FindUnique(s', u);
    }
  }

  /** The step of `ReorderPlusUnlisted`: removing the task of the first listed
      id, and that id, leaves the unlisted tasks as they were. */
  lemma UnlistedStep(s: seq<Task>, ids: seq<string>, s': seq<Task>, x: Task)
    requires UniqueIds(s) && |ids| > 0 && ids[0] !in ids[1..]
    requires x in s && x.id == ids[0] && multiset(s)[x] == 1
    requires multiset(s') == multiset(s) - multiset{x}
    ensures multiset(Unlisted(s, ids)) == multiset(Unlisted(s', ids[1..]))
  {
    forall t ensures multiset(Unlisted(s, ids))[t] == multiset(Unlisted(s', ids[1..]))[t] {
      if t != x && t.id == ids[0] {
        assert t !in s;
      }
    }
  }

  /** The program's promise when every task is on screen: if the listed ids
      are distinct and are exactly the collection's ids, which are unique,
      reordering permutes the collection and changes no task. */
  lemma ReorderPermutes(s: seq<Task>, ids: seq<string>)
    requires UniqueIds(s) && Distinct(ids)
    requires forall id :: id in ids <==> id in IdsOf(s)
    ensures multiset(Reorder(s, ids)) == multiset(s)
  {
    ReorderPlusUnlisted(s, ids);
    forall t | t in s ensures t.id in ids {
      MemberIdListed(s, t);
    }
    assert multiset(Unlisted(s, ids)) == multiset{};
  }

  /** Listing the ids of some tasks `v` of the collection, in any order,
      drops every task outside `v`. */
  lemma ListingDropsOthers(s: seq<Task>, v: seq<Task>, ids: seq<string>, t: Task)
    requires UniqueIds(s) && forall u :: u in v ==> u in s
    requires multiset(ids) == multiset(IdsOf(v))
    requires t in s && t !in v
    ensures t !in Reorder(s, ids)
  {
    forall k | 0 <= k < |v| ensures IdsOf(v)[k] != t.id {
      assert v[k] in s;
    }
    assert t.id !in multiset(ids);
  }

  /** The as-written defect: a drag that ends while the view is narrowed
      (the rows on screen are the view's tasks, in any order) drops from the
      collection every task the view hides. */
  lemma DragWhileFilteredDropsHidden(s: seq<Task>, q: ViewQuery, loc: Locale, ids: seq<string>, t: Task)
    requires UniqueIds(s)
    requires multiset(ids) == multiset(IdsOf(View(s, q, loc)))
    requires t in s && !Passes(t, q, loc)
    ensures t !in Reorder(s, ids)
  {
    ViewWithin(s, q, loc);
    ListingDropsOthers(s, View(s, q, loc), ids, t);
  }

  /** A concrete instance: with "Buy milk" (shopping) and "Finish report"
      (work) in the collection and the category filter on "work", ending a
      drag leaves only "Finish report". */
  lemma DragWhileFilteredExample()
    ensures
      var milk := Task("1", "Buy milk", Shopping, Low, None, false, 1000);
      var report := Task("2", "Finish report", Work, High, Some(0), false, 2000);
      var s := [report, milk];
      var loc := Locale((x: string) => x, (x: string) => 0);
      var q := ViewQuery("", Only(Work), All, Unrecognised);
      && View(s, q, loc) == [report]
      && Reorder(s, IdsOf(View(s, q, loc))) == [report]
  {
    var milk := Task("1", "Buy milk", Shopping, Low, None, false, 1000);
    var report := Task("2", "Finish report", Work, High, Some(0), false, 2000);
    var s := [report, milk];
    var loc := Locale((x: string) => x, (x: string) => 0);
    var q := ViewQuery("", Only(Work), All, Unrecognised);
    assert Passes(report, q, loc) && !Passes(milk, q, loc);
    var v := View(s, q, loc);
    assert multiset(v) == multiset{report};
    assert v == [report];
    assert IdsOf(v) == ["2"];
    assert FindById(s, "2") == Some(report);
  }

  /** The evident intent: the rows on screen are reordered and the tasks the
      view hides stay, in their order, after them. The first part of the
      result is the listed ids that name a task, in list order, each with the
      first task carrying it; the rest are the unlisted tasks. With unique ids
      this loses no task; when the listed ids are distinct and name tasks it
      is a permutation of the collection; when every task is listed it is
      what the program does. */
  function ReorderKeepingHidden(s: seq<Task>, ids: seq<string>): (r: seq<Task>)
    ensures var k := |Keep(ids, Known(s))|;
      && k <= |r|
      && IdsOf(r[..k]) == Keep(ids, Known(s))
      && (forall t :: t in r[..k] ==> FindById(s, t.id) == Some(t))
      && r[k..] == Unlisted(s, ids)
    ensures UniqueIds(s) ==> forall t :: t in s ==> t in r
    ensures UniqueIds(s) && Distinct(ids) && (forall id :: id in ids ==> id in IdsOf(s))
      ==> multiset(r) == multiset(s)
    ensures (forall t :: t in s ==> t.id in ids) ==> r == Reorder(s, ids)
  {
    var a := Reorder(s, ids);
    KeepingHiddenFacts(s, ids);
    ReorderOrder(s, ids);
    assert |a| == |Keep(ids, Known(s))|;
    var r := a + Unlisted(s, ids);
    assert r[..|a|] == a && r[|a|..] == Unlisted(s, ids);
    r
  }

  lemma KeepingHiddenFacts(s: seq<Task>, ids: seq<string>)
    ensures UniqueIds(s) ==> forall t :: t in s ==> t in Reorder(s, ids) + Unlisted(s, ids)
    ensures UniqueIds(s) && Distinct(ids) && (forall id :: id in ids ==> id in IdsOf(s))
      ==> multiset(Reorder(s, ids) + Unlisted(s, ids)) == multiset(s)
    ensures (forall t :: t in s ==> t.id in ids) ==> Unlisted(s, ids) == []
  {
    if UniqueIds(s) {
      forall t | t in s ensures t in Reorder(s, ids) + Unlisted(s, ids) {
        if t.id in ids {
          FindUnique(s, t);
          ReorderIncludes(s, ids, t);
        } else {
          assert multiset(Unlisted(s, ids))[t] > 0;
        }
      }
      if Distinct(ids) && (forall id :: id in ids ==> id in IdsOf(s)) {
        ReorderPlusUnlisted(s, ids);
      }
    }
    KeepEmptyIff(s, NotListed(ids));
  }

  /** Listing the ids of some tasks `v` of the collection with unique ids,
      in any order, makes the listed ids distinct ids of tasks. */
  lemma ListingOfSome(s: seq<Task>, v: seq<Task>, ids: seq<string>)
    requires UniqueIds(s) && forall u :: u in v ==> u in s
    requires UniqueIds(v) && multiset(ids) == multiset(IdsOf(v))
    ensures Distinct(ids) && forall id :: id in ids ==> id in IdsOf(s)
  {
    UniqueIdsDistinctIds(v);
    forall id | id in ids ensures multiset(ids)[id] == 1 && id in IdsOf(s) {
      assert id in multiset(IdsOf(v));
      var k :| 0 <= k < |v| && IdsOf(v)[k] == id;
      MemberIdListed(s, v[k]);
    }
  }

  /** With the correction, a drag that ends while the view is narrowed
      permutes the collection. */
  lemma DragWhileFilteredKeepsAll(s: seq<Task>, q: ViewQuery, loc: Locale, ids: seq<string>)
    requires UniqueIds(s)
    requires multiset(ids) == multiset(IdsOf(View(s, q, loc)))
    ensures multiset(ReorderKeepingHidden(s, ids)) == multiset(s)
  {
    ViewWithin(s, q, loc);
    ViewPreservesUniqueIds(s, q, loc);
    ListingOfSome(s, View(s, q, loc), ids);
  }
}
