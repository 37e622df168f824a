/** The query engine (`getFilteredTasks`): the view of the collection the
    list shows, after the search box, the two filter dropdowns and the sort
    dropdown. It builds a new sequence and leaves the collection alone. */
module Query {
  import opened Wrappers
  import opened Seqs
  import opened Text
  import opened Sorting
  import opened Tasks

  /** A filter dropdown: "all", or one value. */
  datatype Filter<T> = All | Only(value: T)

  predicate Admits<T(==)>(f: Filter<T>, v: T) {
    f.All? || f.value == v
  }

  /** The sort dropdown. `Unrecognised` is any value the program's switch has
      no case for; it leaves the filtered order as it is. */
  datatype SortOption = DateAdded | DueDate | ByPriority | Alphabetical | Unrecognised

  /** The locale-dependent string operations, left abstract: `toLowerCase`,
      and the position of a string in the total order `localeCompare` induces. */
  datatype Locale = Locale(lower: string -> string, collate: string -> int)

  /** The four controls above the list. */
  datatype ViewQuery = ViewQuery(
    search: string,
    category: Filter<Category>,
    priority: Filter<Priority>,
    sort: SortOption)

  /** The fixed priority order: high, then medium, then low. */
  function PriorityRank(p: Priority): nat {
    match p
    case High => 0
    case Medium => 1
    case Low => 2
  }

  /** A task is shown when its lowercased text contains the lowercased search
      term (any text does when that term is empty) and both dropdowns admit it. */
  predicate Passes(t: Task, q: ViewQuery, loc: Locale) {
    var term := loc.lower(q.search);
    && (term == [] || Contains(loc.lower(t.text), term))
    && Admits(q.category, t.category)
    && Admits(q.priority, t.priority)
  }

  /** One `if (...) filtered = filtered.filter(...)` step: when `on`, keep the
      tasks satisfying `p`; otherwise pass everything through. */
  function Stage(s: seq<Task>, on: bool, p: Task -> bool): (r: seq<Task>)
    ensures IsSubseq(r, s)
    ensures forall t :: multiset(r)[t] == if !on || p(t) then multiset(s)[t] else 0
  {
    if on then
      KeepSubseq(s, p);
      Keep(s, p)
    else
      SubseqRefl(s);
      s
  }

  function MatchesTerm(term: string, loc: Locale): Task -> bool {
    (t: Task) => Contains(loc.lower(t.text), term)
  }

  function InCategory(f: Filter<Category>): Task -> bool {
    (t: Task) => Admits(f, t.category)
  }

  function AtPriority(f: Filter<Priority>): Task -> bool {
    (t: Task) => Admits(f, t.priority)
  }

  /** The three filter stages in the program's order: search, category,
      priority. The result is exactly the tasks that pass all three, in
      collection order. */
  function Filtered(s: seq<Task>, q: ViewQuery, loc: Locale): (r: seq<Task>)
    ensures IsSubseq(r, s)
    ensures forall t :: multiset(r)[t] == if Passes(t, q, loc) then multiset(s)[t] else 0
  {
    var term := loc.lower(q.search);
    var a := Stage(s, term != [], MatchesTerm(term, loc));
    var b := Stage(a, q.category.Only?, InCategory(q.category));
    var c := Stage(b, q.priority.Only?, AtPriority(q.priority));
    SubseqTrans(b, a, s);
    SubseqTrans(c, b, s);
    assert forall t :: multiset(c)[t] == if Passes(t, q, loc) then multiset(s)[t] else 0 by {
      forall t ensures multiset(c)[t] == if Passes(t, q, loc) then multiset(s)[t] else 0 {
        assert multiset(c)[t] == if !q.priority.Only? || AtPriority(q.priority)(t) then multiset(b)[t] else 0;
        assert multiset(b)[t] == if !q.category.Only? || InCategory(q.category)(t) then multiset(a)[t] else 0;
        assert multiset(a)[t] == if term == [] || MatchesTerm(term, loc)(t) then multiset(s)[t] else 0;
      }
    }
    c
  }

  /** The comparator of each sort option, as a key. Newest first is ascending
      in the negated timestamp; undated tasks rank after every dated one. */
  function SortKey(opt: SortOption, loc: Locale): Task -> Rank {
    match opt
    case DateAdded => (t: Task) => Rank(-t.createdAt, 0)
    case DueDate => (t: Task) => if t.dueDate.Some? then Rank(0, t.dueDate.value) else Rank(1, 0)
    case ByPriority => (t: Task) => Rank(PriorityRank(t.priority), 0)
    case Alphabetical => (t: Task) => Rank(loc.collate(t.text), 0)
    case Unrecognised => (t: Task) => Rank(0, 0)
  }

  /** What being in key order means for each sort option. */
  predicate InOrder(r: seq<Task>, opt: SortOption, loc: Locale) {
    match opt
    case DateAdded =>
      forall i, j :: 0 <= i < j < |r| ==> r[i].createdAt >= r[j].createdAt
    case DueDate =>
      forall i, j :: 0 <= i < j < |r| && r[j].dueDate.Some? ==>
        r[i].dueDate.Some? && r[i].dueDate.value <= r[j].dueDate.value
    case ByPriority =>
      forall i, j :: 0 <= i < j < |r| ==> PriorityRank(r[i].priority) <= PriorityRank(r[j].priority)
    case Alphabetical =>
      forall i, j :: 0 <= i < j < |r| ==> loc.collate(r[i].text) <= loc.collate(r[j].text)
    case Unrecognised => true
  }

  /** Sorting by an option's key puts the tasks in that option's order. */
  lemma SortedInOrder(r: seq<Task>, opt: SortOption, loc: Locale)
    requires Sorted(r, SortKey(opt, loc))
    ensures InOrder(r, opt, loc)
  {
    var key := SortKey(opt, loc);
    forall i, j | 0 <= i < j < |r|
      ensures RankLe(key(r[i]), key(r[j]))
    {
    }
  }

  /** `getFilteredTasks`: the filtered tasks, sorted by the chosen option.
      Newest first under "date-added"; under "due-date" every dated task
      before every undated one, dated ones by ascending date; under
      "priority" high, then medium, then low; under "alphabetical" in
      collation order; otherwise in collection order. */
  function View(s: seq<Task>, q: ViewQuery, loc: Locale): (r: seq<Task>)
    ensures forall t :: multiset(r)[t] == if Passes(t, q, loc) then multiset(s)[t] else 0
    ensures q.sort == Unrecognised ==> IsSubseq(r, s)
    ensures InOrder(r, q.sort, loc)
  {
    var f := Filtered(s, q, loc);
    if q.sort == Unrecognised then f
    else
      var r := SortBy(f, SortKey(q.sort, loc));
      SortedInOrder(r, q.sort, loc);
      r
  }

  /** Under "priority", tasks of equal priority keep their filtered order
      (JavaScript's sort is stable). */
  lemma ViewPriorityStable(s: seq<Task>, q: ViewQuery, loc: Locale, p: Priority)
    requires q.sort == ByPriority
    ensures Keep(View(s, q, loc), AtPriority(Only(p))) == Keep(Filtered(s, q, loc), AtPriority(Only(p)))
  {
    var f := Filtered(s, q, loc);
    var key := SortKey(ByPriority, loc);
    var k := Rank(PriorityRank(p), 0);
    SortByStable(f, key, k);
    assert forall t :: HasKey(key, k)(t) == AtPriority(Only(p))(t);
    KeepCongruent(SortBy(f, key), HasKey(key, k), AtPriority(Only(p)));
    KeepCongruent(f, HasKey(key, k), AtPriority(Only(p)));
  }

  function CreatedAt(c: int): Task -> bool {
    (t: Task) => t.createdAt == c
  }

  /** Under "date-added", tasks created at the same instant keep their
      filtered order. */
  lemma ViewDateAddedStable(s: seq<Task>, q: ViewQuery, loc: Locale, c: int)
    requires q.sort == DateAdded
    ensures Keep(View(s, q, loc), CreatedAt(c)) == Keep(Filtered(s, q, loc), CreatedAt(c))
  {
    var f := Filtered(s, q, loc);
    var key := SortKey(DateAdded, loc);
    var k := Rank(-c, 0);
    SortByStable(f, key, k);
    assert forall t :: HasKey(key, k)(t) == CreatedAt(c)(t);
    KeepCongruent(SortBy(f, key), HasKey(key, k), CreatedAt(c));
    KeepCongruent(f, HasKey(key, k), CreatedAt(c));
  }

  /** With an empty search term and both dropdowns on "all", the view holds
      every task; with no recognised sort option it is the collection itself. */
  lemma ViewUnfiltered(s: seq<Task>, q: ViewQuery, loc: Locale)
    requires loc.lower(q.search) == [] && q.category.All? && q.priority.All?
    ensures multiset(View(s, q, loc)) == multiset(s)
    ensures q.sort == Unrecognised ==> View(s, q, loc) == s
  {
    assert forall t :: Passes(t, q, loc);
    assert Filtered(s, q, loc) == s;
  }

  /** The view never shows a task twice or two tasks with one id, provided
      the collection does not hold such. */
  lemma ViewPreservesUniqueIds(s: seq<Task>, q: ViewQuery, loc: Locale)
    requires UniqueIds(s)
    ensures UniqueIds(View(s, q, loc))
  {
    UniqueIdsSubMultiset(View(s, q, loc), s);
  }

  /** Every task of the view is a task of the collection that passes the
      search and the filters. */
  lemma ViewWithin(s: seq<Task>, q: ViewQuery, loc: Locale)
    ensures forall t :: t in View(s, q, loc) ==> t in s && Passes(t, q, loc)
  {
    forall t | t in View(s, q, loc) ensures t in s && Passes(t, q, loc) {
      assert multiset(View(s, q, loc))[t] > 0;
    }
  }
}
