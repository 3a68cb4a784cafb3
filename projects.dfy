/** The project showcase: the tech-stack tag buttons, the tag toggle, the OR-filter over the
    selected tags, and the project modal's cyclic next/previous navigation. */
module ProjectsPage {
  import opened Wrappers
  import opened Seqs

  /** `detail` is a single paragraph or a list of them. */
  datatype Detail = Paragraph(text: string) | Paragraphs(items: seq<string>)

  /** A project record. */
  datatype Project = Project(
    title: string, description: string, detail: Detail,
    image: string, github: string, demo: string, techStack: seq<string>)

  function TechStacks(projects: seq<Project>): seq<seq<string>> {
    seq(|projects|, i requires 0 <= i < |projects| => projects[i].techStack)
  }

  /** `allTags`: each tech that some project lists, once, in order of first appearance. */
  function AllTags(projects: seq<Project>): (r: seq<string>)
    ensures NoDup(r)
    ensures forall t | t in r :: exists p :: p in projects && t in p.techStack
    ensures forall p, t | p in projects && t in p.techStack :: t in r
  {
    var stacks := TechStacks(projects);
    forall p, t | p in projects && t in p.techStack ensures t in Flatten(stacks) {
      var i :| 0 <= i < |projects| && projects[i] == p;
      assert t in stacks[i];
    }
    Dedup(Flatten(stacks))
  }

  // ---- Tag selection ----

  /** `toggleTag`: drop the tag when selected, append it at the end otherwise. */
  function Toggle(tags: seq<string>, tag: string): (r: seq<string>)
    ensures tag in r <==> tag !in tags
    ensures forall t | t != tag :: t in r <==> t in tags
    ensures tag !in tags ==> r == tags + [tag]
    ensures tag in tags ==> IsSubsequence(r, tags) && |r| < |tags|
    ensures NoDup(tags) ==> NoDup(r)
  {
    if tag in tags then
      var r := Filter(tags, t => t != tag);
      FilterIsSubsequence(tags, t => t != tag);
      FilterDropsOne(tags, tag);
      r
    else
      assert NoDup(tags) ==> NoDup(tags + [tag]);
      tags + [tag]
  }

  /** Removing every copy of a present element shortens the sequence and keeps it free of duplicates. */
  lemma {:induction false} FilterDropsOne(tags: seq<string>, tag: string)
    requires tag in tags
    ensures |Filter(tags, t => t != tag)| < |tags|
    ensures NoDup(tags) ==> NoDup(Filter(tags, t => t != tag))
  {
    if NoDup(tags) {
      FilterNoDup(tags, t => t != tag);
    }
    if tags[0] != tag {
      FilterDropsOne(tags[1..], tag);
    }
  }

  /** Toggling an unselected tag twice gives back the very same list. */
  lemma ToggleTwiceAbsent(tags: seq<string>, tag: string)
    requires tag !in tags
    ensures Toggle(Toggle(tags, tag), tag) == tags
  {
    FilterAppend(tags, [tag], t => t != tag);
    FilterAll(tags, t => t != tag);
  }

  /** Toggling a selected tag twice gives back the same set of tags. */
  lemma ToggleTwicePresent(tags: seq<string>, tag: string)
    requires tag in tags
    ensures forall t :: t in Toggle(Toggle(tags, tag), tag) <==> t in tags
  {
  }

  // ---- Filtering ----

  /** A project is shown when no tag is selected, or when it uses some selected tech. */
  predicate Shown(p: Project, selected: seq<string>) {
    |selected| == 0 || exists t :: t in p.techStack && t in selected
  }

  /** `filteredProjects`. */
  function FilterProjects(projects: seq<Project>, selected: seq<string>): (r: seq<Project>)
    ensures IsSubsequence(r, projects)
    ensures forall p | p in r :: p in projects && Shown(p, selected)
    ensures forall p | p in projects && Shown(p, selected) :: p in r
    ensures forall p :: multiset(r)[p] == if Shown(p, selected) then multiset(projects)[p] else 0
  {
    FilterIsSubsequence(projects, p => Shown(p, selected));
    forall p ensures multiset(Filter(projects, p => Shown(p, selected)))[p] == if Shown(p, selected) then multiset(projects)[p] else 0 {
      FilterCount(projects, p => Shown(p, selected), p);
    }
    Filter(projects, p => Shown(p, selected))
  }

  /** With no tag selected every project is shown, in order. */
  lemma NoSelectionShowsAll(projects: seq<Project>)
    ensures FilterProjects(projects, []) == projects
  {
    FilterAll(projects, p => Shown(p, []));
  }

  // ---- Navigation ----

  /** `findIndex(p => p.title === title)`: the first index with that title, or -1. */
  function FindIndexByTitle(ps: seq<Project>, title: string): (i: int)
    ensures -1 <= i < |ps|
    ensures i == -1 <==> forall p | p in ps :: p.title != title
    ensures i >= 0 ==> ps[i].title == title && forall j | 0 <= j < i :: ps[j].title != title
  {
    if ps == [] then -1
    else if ps[0].title == title then 0
    else
      var k := FindIndexByTitle(ps[1..], title);
      assert forall p | p in ps[1..] :: p in ps;
      if k == -1 then -1 else k + 1
  }

  /** JavaScript's `a % n`, whose result takes the sign of `a`. */
  function TruncRem(a: int, n: int): (r: int)
    requires n > 0
    ensures a >= 0 ==> r == a % n
    ensures -n < r < n
  {
    if a >= 0 then a % n else -((-a) % n)
  }

  /** `ps[k] || null` for a project array: `undefined` outside the array. */
  function At(ps: seq<Project>, k: int): Option<Project> {
    if 0 <= k < |ps| then Some(ps[k]) else None
  }

  /** `getNextProject`; for an empty list `% 0` gives NaN and so `null`. */
  function NextProject(filtered: seq<Project>, selected: Option<Project>): (r: Option<Project>)
    ensures r.Some? <==> selected.Some? && filtered != []
    ensures r.Some? ==> r.value in filtered
  {
    if selected.None? || |filtered| == 0 then None
    else At(filtered, TruncRem(FindIndexByTitle(filtered, selected.value.title) + 1, |filtered|))
  }

  /** `getPrevProject`; on a one-project list an absent title gives `-1 % 1`, that is `-0`, index 0. */
  function PrevProject(filtered: seq<Project>, selected: Option<Project>): (r: Option<Project>)
    ensures r.Some? <==> selected.Some? && filtered != []
    ensures r.Some? ==> r.value in filtered
  {
    if selected.None? || |filtered| == 0 then None
    else At(filtered, TruncRem(FindIndexByTitle(filtered, selected.value.title) - 1 + |filtered|, |filtered|))
  }

  predicate UniqueTitles(ps: seq<Project>) {
    forall i, j :: 0 <= i < j < |ps| ==> ps[i].title != ps[j].title
  }

  /** From the project at index `i`, next is the one at `(i + 1) % n`. */
  lemma NextOfIndexed(filtered: seq<Project>, i: int)
    requires UniqueTitles(filtered) && 0 <= i < |filtered|
    ensures NextProject(filtered, Some(filtered[i])) == Some(filtered[(i + 1) % |filtered|])
  {
    var k := FindIndexByTitle(filtered, filtered[i].title);
    assert k == i;
  }

  /** From the project at index `i`, previous is the one at `(i - 1 + n) % n`. */
  lemma PrevOfIndexed(filtered: seq<Project>, i: int)
    requires UniqueTitles(filtered) && 0 <= i < |filtered|
    ensures PrevProject(filtered, Some(filtered[i])) == Some(filtered[(i - 1 + |filtered|) % |filtered|])
  {
    var k := FindIndexByTitle(filtered, filtered[i].title);
    assert k == i;
  }

  /** A project whose title is not in the list: next is the first project, previous the
      second to last one (the only one when there is one). */
  lemma NavigateFromAbsent(filtered: seq<Project>, p: Project)
    requires filtered != [] && forall q | q in filtered :: q.title != p.title
    ensures NextProject(filtered, Some(p)) == Some(filtered[0])
    ensures |filtered| >= 2 ==> PrevProject(filtered, Some(p)) == Some(filtered[|filtered| - 2])
    ensures |filtered| == 1 ==> PrevProject(filtered, Some(p)) == Some(filtered[0])
  {
    var n := |filtered|;
    assert FindIndexByTitle(filtered, p.title) == -1;
    assert TruncRem(0, n) == 0;
    if n >= 2 {
      ModOfRange(n - 2, n);
    } else {
      assert TruncRem(-1, 1) == 0;
    }
  }

  /** `x % n` for `0 <= x < 2n`. */
  lemma ModOfRange(x: int, n: int)
    requires 0 <= x < 2 * n
    ensures x % n == if x < n then x else x - n
  {
    var q, r := x / n, x % n;
    assert x == q * n + r && 0 <= r < n;
    if x < n {
      assert q == 0;
    } else {
      assert q == 1;
    }
  }

  /** The cyclic successor and predecessor of an index, without `%`. */
  lemma Wrap(i: int, n: int)
    requires 0 <= i < n
    ensures (i + 1) % n == if i + 1 < n then i + 1 else 0
    ensures (i - 1 + n) % n == if i > 0 then i - 1 else n - 1
  {
    ModOfRange(i + 1, n);
    ModOfRange(i - 1 + n, n);
  }

  /** With unique titles, previous undoes next. */
  lemma PrevAfterNext(filtered: seq<Project>, i: int)
    requires UniqueTitles(filtered) && 0 <= i < |filtered|
    ensures PrevProject(filtered, NextProject(filtered, Some(filtered[i]))) == Some(filtered[i])
  {
    var n := |filtered|;
    Wrap(i, n);
    var j := if i + 1 < n then i + 1 else 0;
    Wrap(j, n);
    NextOfIndexed(filtered, i);
    assert NextProject(filtered, Some(filtered[i])) == Some(filtered[j]);
    PrevOfIndexed(filtered, j);
  }

  /** With unique titles, next undoes previous. */
  lemma NextAfterPrev(filtered: seq<Project>, i: int)
    requires UniqueTitles(filtered) && 0 <= i < |filtered|
    ensures NextProject(filtered, PrevProject(filtered, Some(filtered[i]))) == Some(filtered[i])
  {
    var n := |filtered|;
    Wrap(i, n);
    var k := if i > 0 then i - 1 else n - 1;
    Wrap(k, n);
    PrevOfIndexed(filtered, i);
    assert PrevProject(filtered, Some(filtered[i])) == Some(filtered[k]);
    NextOfIndexed(filtered, k);
  }

  // ---- Page state ----

  /** The page's state cells: `selectedTags` and `selectedProject` over a fixed project list. */
  class ProjectsPageState {
    const projects: seq<Project>
    var selectedTags: seq<string>
    var selectedProject: Option<Project>

    /** The selection has no duplicates and an open project is one of the projects. */
    predicate Valid()
      reads this
    {
      NoDup(selectedTags) && (selectedProject.Some? ==> selectedProject.value in projects)
    }

    function Filtered(): seq<Project>
      reads this
    {
      FilterProjects(projects, selectedTags)
    }

    constructor(projects: seq<Project>)
      ensures this.projects == projects && selectedTags == [] && selectedProject == None
      ensures Valid()
    {
      this.projects := projects;
      selectedTags := [];
      selectedProject := None;
    }

    /** A tag button's `onClick`. */
    method ToggleTag(tag: string)
      requires Valid()
      modifies this
      ensures selectedTags == Toggle(old(selectedTags), tag)
      ensures selectedProject == old(selectedProject)
      ensures Valid()
    {
      selectedTags := Toggle(selectedTags, tag);
    }

    /** A project card's `onClick`, on the card at index `i` of the shown list. */
    method Select(i: nat)
      requires Valid() && i < |Filtered()|
      modifies this
      ensures selectedProject == Some(old(Filtered())[i])
      ensures selectedTags == old(selectedTags)
      ensures Valid()
    {
      selectedProject := Some(Filtered()[i]);
    }

    /** The modal's `onClose`. */
    method Close()
      requires Valid()
      modifies this
      ensures selectedProject == None && selectedTags == old(selectedTags)
      ensures Valid()
    {
      selectedProject := None;
    }

    /** The modal's `onNext`. */
    method ShowNext()
      requires Valid()
      modifies this
      ensures selectedProject == NextProject(old(Filtered()), old(selectedProject))
      ensures selectedTags == old(selectedTags)
      ensures Valid()
    {
      selectedProject := NextProject(Filtered(), selectedProject);
    }

    /** The modal's `onPrev`. */
    method ShowPrev()
      requires Valid()
      modifies this
      ensures selectedProject == PrevProject(old(Filtered()), old(selectedProject))
      ensures selectedTags == old(selectedTags)
      ensures Valid()
    {
      selectedProject := PrevProject(Filtered(), selectedProject);
    }
  }
}
