/**
 * `ProjectRepository.list_projects` (app.py): the loaded projects, newest
 * first. Python's `sorted(..., key=lambda item: item.date or datetime.min,
 * reverse=True)` is stable, so projects with equal keys keep the order in
 * which they were loaded (file-name order).
 */
module Projects {
  import opened Wrappers

  /** A loaded project, reduced to the fields the ordering is about. Dates
      are ordinals, `MinDate` being `datetime.min`. */
  datatype Project = Project(slug: string, date: Option<nat>)

  /** `datetime.min`, the key of an undated project. */
  const MinDate: nat := 0

  /** `item.date or datetime.min`. */
  function SortKey(p: Project): (k: nat)
    ensures p.date.Some? ==> k == p.date.value
    ensures p.date.None? ==> k == MinDate
  {
    match p.date
    case Some(d) => d
    case None => MinDate
  }

  /** Keys never increase from left to right. */
  predicate NewestFirst(ps: seq<Project>) {
    forall i, j :: 0 <= i < j < |ps| ==> SortKey(ps[i]) >= SortKey(ps[j])
  }

  /** Puts `p` in front of the first project whose key is not larger. */
  function Insert(p: Project, sorted: seq<Project>): (r: seq<Project>)
    ensures |r| == |sorted| + 1
    ensures multiset(r) == multiset(sorted) + multiset{p}
    ensures r[0] == p || (sorted != [] && r[0] == sorted[0])
    ensures NewestFirst(sorted) ==> NewestFirst(r)
  {
    if sorted == [] then [p]
    else if SortKey(sorted[0]) <= SortKey(p) then
      assert NewestFirst(sorted) ==> NewestFirst([p] + sorted) by {
        if NewestFirst(sorted) { ConsNewestFirst(p, sorted); }
      }
      MultisetCons(p, sorted);
      [p] + sorted
    else
      var rest := Insert(p, sorted[1..]);
      InsertBehind(p, sorted, rest);
      assert NewestFirst(sorted) ==> NewestFirst([sorted[0]] + rest) by {
        if NewestFirst(sorted) { InsertBehindHead(p, sorted, rest); }
      }
      [sorted[0]] + rest
  }

  lemma MultisetCons<T>(x: T, xs: seq<T>)
    ensures multiset([x] + xs) == multiset{x} + multiset(xs)
  {
  }

  lemma InsertBehind<T>(p: T, sorted: seq<T>, rest: seq<T>)
    requires sorted != [] && multiset(rest) == multiset(sorted[1..]) + multiset{p}
    ensures multiset([sorted[0]] + rest) == multiset(sorted) + multiset{p}
  {
    assert sorted == [sorted[0]] + sorted[1..];
    MultisetCons(sorted[0], sorted[1..]);
    MultisetCons(sorted[0], rest);
  }

  lemma InsertBehindHead(p: Project, sorted: seq<Project>, rest: seq<Project>)
    requires NewestFirst(sorted) && sorted != [] && SortKey(p) < SortKey(sorted[0])
    requires NewestFirst(sorted[1..]) ==> NewestFirst(rest)
    requires rest != [] && (rest[0] == p || (sorted[1..] != [] && rest[0] == sorted[1..][0]))
    ensures NewestFirst([sorted[0]] + rest)
  {
    assert NewestFirst(sorted[1..]);
    ConsNewestFirst(sorted[0], rest);
  }

  /** A project at least as new as the head of a newest-first list can go in front of it. */
  lemma ConsNewestFirst(x: Project, rest: seq<Project>)
    requires NewestFirst(rest) && (rest == [] || SortKey(x) >= SortKey(rest[0]))
    ensures NewestFirst([x] + rest)
  {
    var r := [x] + rest;
    forall i, j | 0 <= i < j < |r| ensures SortKey(r[i]) >= SortKey(r[j]) {
      assert r[j] == rest[j - 1];
      if i > 0 {
        assert r[i] == rest[i - 1];
      }
    }
  }

  /** The ordering of `list_projects`, as a stable insertion sort. */
  function ListProjects(loaded: seq<Project>): (r: seq<Project>)
    ensures multiset(r) == multiset(loaded)
    ensures NewestFirst(r)
  {
    if loaded == [] then []
    else
      assert loaded == [loaded[0]] + loaded[1..];
      Insert(loaded[0], ListProjects(loaded[1..]))
  }

  /** The projects whose key is `k`, in order. */
  function WithKey(ps: seq<Project>, k: nat): seq<Project> {
    if ps == [] then []
    else if SortKey(ps[0]) == k then [ps[0]] + WithKey(ps[1..], k)
    else WithKey(ps[1..], k)
  }

  lemma {:induction false} InsertWithKey(p: Project, sorted: seq<Project>, k: nat)
    requires NewestFirst(sorted)
    ensures WithKey(Insert(p, sorted), k) ==
              if SortKey(p) == k then [p] + WithKey(sorted, k) else WithKey(sorted, k)
  {
    if sorted != [] && SortKey(sorted[0]) > SortKey(p) {
      InsertWithKey(p, sorted[1..], k);
      var r := Insert(p, sorted);
      assert r[0] == sorted[0] && r[1..] == Insert(p, sorted[1..]);
    }
  }

  /** Stability: for every key, the projects with that key appear in the
      result in the order they were loaded. */
  lemma {:induction false} ListProjectsIsStable(loaded: seq<Project>, k: nat)
    ensures WithKey(ListProjects(loaded), k) == WithKey(loaded, k)
  {
    if loaded != [] {
      ListProjectsIsStable(loaded[1..], k);
      InsertWithKey(loaded[0], ListProjects(loaded[1..]), k);
    }
  }

  /** Undated projects come after every project dated later than `datetime.min`. */
  lemma UndatedLast(loaded: seq<Project>)
    ensures var r := ListProjects(loaded);
            forall i, j :: 0 <= i < j < |r| && r[i].date.None? ==> SortKey(r[j]) == MinDate
  {
  }
}
