/** The data model: a task record, the form that creates and edits one, and
    lookups by id over the ordered task collection. */
module Tasks {
  import opened Wrappers
  import opened Seqs

  datatype Priority = High | Medium | Low

  datatype Category = Personal | Work | Shopping | Health | Other

  /** A to-do item. `dueDate` is a day number (the date input has no time of
      day); `createdAt` is a timestamp in milliseconds. */
  datatype Task = Task(
    id: string,
    text: string,
    category: Category,
    priority: Priority,
    dueDate: Option<int>,
    completed: bool,
    createdAt: int)

  /** The values of the creation form, and of the edit dialog, which mirrors it.
      An empty date field is `None`. */
  datatype TaskForm = TaskForm(text: string, category: Category, priority: Priority, dueDate: Option<int>)

  predicate IsCompleted(t: Task) {
    t.completed
  }

  /** The ids of `s`, position by position. */
  function IdsOf(s: seq<Task>): (r: seq<string>)
    ensures |r| == |s|
    ensures forall i :: 0 <= i < |s| ==> r[i] == s[i].id
  {
    if |s| == 0 then [] else [s[0].id] + IdsOf(s[1..])
  }

  /** No task occurs twice and no two different tasks share an id; equivalently,
      the ids of the collection are pairwise distinct. */
  predicate UniqueIds(s: seq<Task>) {
    && Distinct(s)
    && forall t, u :: t in s && u in s && t.id == u.id ==> t == u
  }

  /** Position `i` holds the first task of `s` whose id is `id`. */
  predicate IsFirstMatch(s: seq<Task>, id: string, i: int) {
    && 0 <= i < |s|
    && s[i].id == id
    && forall j :: 0 <= j < i ==> s[j].id != id
  }

  /** `findIndex(t => t.id === id)`, with `None` for JavaScript's -1. */
  function FirstIndexOf(s: seq<Task>, id: string): (r: Option<nat>)
    ensures r.None? <==> forall i :: 0 <= i < |s| ==> s[i].id != id
    ensures r.Some? ==> IsFirstMatch(s, id, r.value)
  {
    if |s| == 0 then None
    else if s[0].id == id then Some(0)
    else
      match FirstIndexOf(s[1..], id)
      case None => None
      case Some(i) => Some(i + 1)
  }

  /** `find(t => t.id === id)`, with `None` for JavaScript's `undefined`. */
  function FindById(s: seq<Task>, id: string): (r: Option<Task>)
    ensures r.None? <==> id !in IdsOf(s)
    ensures r.Some? ==> r.value in s && r.value.id == id
  {
    match FirstIndexOf(s, id)
    case None => None
    case Some(i) => Some(s[i])
  }

  /** The task `find` returns is the first one with the id. */
  lemma FindFirst(s: seq<Task>, id: string)
    requires FindById(s, id).Some?
    ensures exists i :: IsFirstMatch(s, id, i) && s[i] == FindById(s, id).value
  {
    var i := FirstIndexOf(s, id).value;
    assert IsFirstMatch(s, id, i);
  }

  /** With unique ids, looking a task's id up finds that very task. */
  lemma FindUnique(s: seq<Task>, t: Task)
    requires UniqueIds(s) && t in s
    ensures FindById(s, t.id) == Some(t)
  {
    assert t.id in IdsOf(s);
  }

  /** Taking some of the tasks, in any order, keeps the ids unique. */
  lemma UniqueIdsSubMultiset(a: seq<Task>, b: seq<Task>)
    requires UniqueIds(b) && multiset(a) <= multiset(b)
    ensures UniqueIds(a)
  {
    forall t | t in a ensures multiset(a)[t] == 1 && t in b {
      assert t in multiset(a);
    }
  }

  /** Unique ids in the collection mean each id is listed once. */
  lemma {:induction false} UniqueIdsDistinctIds(s: seq<Task>)
    requires UniqueIds(s)
    ensures Distinct(IdsOf(s))
    decreases |s|
  {
    if |s| > 0 {
      UniqueIdsTail(s);
      UniqueIdsDistinctIds(s[1..]);
      assert IdsOf(s) == [s[0].id] + IdsOf(s[1..]) by {}
      DistinctCons(s[0].id, IdsOf(s[1..]));
    }
  }

  lemma UniqueIdsTail(s: seq<Task>)
    requires UniqueIds(s) && |s| > 0
    ensures UniqueIds(s[1..])
    ensures s[0].id !in IdsOf(s[1..])
  {
    MultisetHead(s);
    UniqueIdsSubMultiset(s[1..], s);
    assert s[0] !in s[1..] by {
      assert multiset(s)[s[0]] == 1;
    }
    forall i | 0 <= i < |s| - 1
      ensures IdsOf(s[1..])[i] != s[0].id
    {
      var u := s[1..][i];
      assert u == s[i + 1] && u != s[0];
    }
  }

  /** Each occurrence of a task, and of any other task with the same id,
      contributes an occurrence of that id. */
  lemma {:induction false} IdCount(s: seq<Task>, t: Task, u: Task)
    ensures multiset(IdsOf(s))[t.id]
         >= multiset(s)[t] + (if u != t && u.id == t.id then multiset(s)[u] else 0)
    decreases |s|
  {
    if |s| > 0 {
      IdCount(s[1..], t, u);
      MultisetHead(s);
      MultisetHead(IdsOf(s));
      assert IdsOf(s)[1..] == IdsOf(s[1..]);
    }
  }

  /** Unique ids, stated on the tasks, are distinct ids, stated on the id list. */
  lemma UniqueIdsIff(s: seq<Task>)
    ensures UniqueIds(s) <==> Distinct(IdsOf(s))
  {
    if UniqueIds(s) {
      UniqueIdsDistinctIds(s);
    }
    if Distinct(IdsOf(s)) {
      forall t | t in s ensures multiset(s)[t] == 1 {
        IdCount(s, t, t);
        assert t.id in IdsOf(s);
      }
      forall t, u | t in s && u in s && t.id == u.id ensures t == u {
        IdCount(s, t, u);
        assert t.id in IdsOf(s);
      }
    }
  }

  /** Replacing a task by one with the same id keeps the id list, and so
      keeps ids unique. */
  lemma ReplaceSameId(s: seq<Task>, i: nat, x: Task)
    requires i < |s| && x.id == s[i].id
    ensures IdsOf(s[i := x]) == IdsOf(s)
    ensures UniqueIds(s) ==> UniqueIds(s[i := x])
  {
    var r := s[i := x];
    assert IdsOf(r) == IdsOf(s) by {
      assert forall j :: 0 <= j < |s| ==> IdsOf(r)[j] == IdsOf(s)[j];
    }
    UniqueIdsIff(s);
    UniqueIdsIff(r);
  }

  /** The id of a task in the collection is in its id list. */
  lemma MemberIdListed(s: seq<Task>, t: Task)
    requires t in s
    ensures t.id in IdsOf(s)
  {
    var k :| 0 <= k < |s| && s[k] == t;
    assert IdsOf(s)[k] == t.id;
  }

  /** What `FindById` finds is in the collection. */
  lemma FindMember(s: seq<Task>, id: string)
    requires FindById(s, id).Some?
    ensures FindById(s, id).value in s
  {
  }
}
