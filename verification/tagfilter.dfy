/**
 * The tag filter bar: an "All" button and one button per distinct tag, in the order
 * tags are first seen across the projects. A click re-renders the grid from the full
 * project list, so filters never stack.
 */
module TagFilter {
  import opened Seqs
  import opened Projects

  /** Every project's tags flattened in project order; a missing list counts as empty. */
  function AllTags(projects: seq<Project>): (r: seq<string>)
    ensures forall t :: t in r <==> exists p :: p in projects && t in TagsOf(p)
  {
    if projects == [] then []
    else
      var rest := AllTags(projects[1..]);
      assert forall p :: p in projects <==> p == projects[0] || p in projects[1..];
      TagsOf(projects[0]) + rest
  }

  /** No tags at all exactly when every project's tag list is missing or empty. */
  lemma {:induction false} AllTagsEmpty(projects: seq<Project>)
    ensures AllTags(projects) == [] <==> forall p :: p in projects ==> TagsOf(p) == []
  {
    if projects != [] {
      AllTagsEmpty(projects[1..]);
      assert forall p :: p in projects <==> p == projects[0] || p in projects[1..];
    }
  }

  /** The filter bar: absent, or shown with "All" followed by one button per tag. */
  datatype TagBar = Hidden | Shown(tags: seq<string>)

  /**
   * The bar for a feed. It is hidden when the feed is not an array or no project has a
   * tag; otherwise it lists every tag of every project exactly once, in the order of
   * first occurrence in the flattened tag sequence.
   */
  function RenderTags(feed: Feed): (bar: TagBar)
    ensures feed.NotAnArray? ==> bar.Hidden?
    ensures feed.ProjectArray? ==>
      (bar.Hidden? <==> forall p :: p in feed.items ==> TagsOf(p) == [])
    ensures bar.Shown? ==>
      && feed.ProjectArray?
      && bar.tags != []
      && NoDup(bar.tags)
      && (forall t :: t in bar.tags <==> exists p :: p in feed.items && t in TagsOf(p))
      && InFirstOccurrenceOrder(AllTags(feed.items), bar.tags)
  {
    match feed
    case NotAnArray => Hidden
    case ProjectArray(projects) =>
      var tags := Distinct(AllTags(projects));
      if tags == [] then
        AllTagsEmpty(projects);
        Hidden
      else
        AllTagsEmpty(projects);
        assert forall t :: t in tags <==> t in AllTags(projects);
        Shown(tags)
  }

  /** A button of the bar. */
  datatype Button = ShowAll | ShowTag(tag: string)

  /** The bar's buttons, "All" first. */
  function Buttons(bar: TagBar): (r: seq<Button>)
    ensures bar.Hidden? ==> r == []
    ensures bar.Shown? ==>
      && |r| == |bar.tags| + 1
      && r[0] == ShowAll
      && forall i :: 0 <= i < |bar.tags| ==> r[i + 1] == ShowTag(bar.tags[i])
  {
    match bar
    case Hidden => []
    case Shown(tags) => [ShowAll] + seq(|tags|, i requires 0 <= i < |tags| => ShowTag(tags[i]))
  }

  /**
   * The filter behind a tag button: exactly the projects tagged `t`, each as often as
   * in the input, in their original relative order.
   */
  function FilterByTag(projects: seq<Project>, t: string): (r: seq<Project>)
    ensures forall i :: 0 <= i < |r| ==> t in TagsOf(r[i])
    ensures forall p :: multiset(r)[p] == if t in TagsOf(p) then multiset(projects)[p] else 0
    ensures IsSubsequence(r, projects)
  {
    if projects == [] then []
    else
      var head, rest := projects[0], FilterByTag(projects[1..], t);
      assert projects == [head] + projects[1..];
      if t in TagsOf(head) then
        assert ([head] + rest)[1..] == rest;
        [head] + rest
      else
        assert rest == [] || rest[0] != head;
        rest
  }

  /**
   * The projects the grid shows after a click: always taken from the full list, and
   * for a tag, the tagged projects in their original order and multiplicity.
   */
  function OnClick(projects: seq<Project>, b: Button): (r: seq<Project>)
    ensures b.ShowAll? ==> r == projects
    ensures b.ShowTag? ==> forall p :: p in r <==> p in projects && b.tag in TagsOf(p)
    ensures b.ShowTag? ==> forall p :: multiset(r)[p] == if b.tag in TagsOf(p) then multiset(projects)[p] else 0
    ensures b.ShowTag? ==> IsSubsequence(r, projects)
  {
    match b
    case ShowAll => projects
    case ShowTag(t) =>
      var r := FilterByTag(projects, t);
      assert forall p :: p in r <==> multiset(r)[p] > 0;
      r
  }

  /**
   * The projects shown after a run of clicks, starting from `shown` (on load, the grid
   * shows the whole feed).
   */
  function Replay(projects: seq<Project>, shown: seq<Project>, clicks: seq<Button>): seq<Project>
    decreases |clicks|
  {
    if clicks == [] then shown else Replay(projects, OnClick(projects, clicks[0]), clicks[1..])
  }

  /** Filters are not cumulative: only the last click decides what the grid shows. */
  lemma {:induction false} FiltersNotCumulative(projects: seq<Project>, shown: seq<Project>, clicks: seq<Button>)
    ensures Replay(projects, shown, clicks) ==
      if clicks == [] then shown else OnClick(projects, clicks[|clicks| - 1])
    decreases |clicks|
  {
    if clicks != [] {
      var next, rest := OnClick(projects, clicks[0]), clicks[1..];
      assert Replay(projects, shown, clicks) == Replay(projects, next, rest);
      FiltersNotCumulative(projects, next, rest);
      if rest == [] {
        assert |clicks| == 1;
      } else {
        assert rest[|rest| - 1] == clicks[|clicks| - 1];
      }
    }
  }

  /** Filtering projects that all carry the tag keeps them all. */
  lemma {:induction false} FilterKeepsTagged(projects: seq<Project>, t: string)
    requires forall i :: 0 <= i < |projects| ==> t in TagsOf(projects[i])
    ensures FilterByTag(projects, t) == projects
  {
    if projects != [] {
      FilterKeepsTagged(projects[1..], t);
    }
  }

  /** Filtering an already filtered list again by the same tag changes nothing. */
  lemma {:induction false} FilterIdempotent(projects: seq<Project>, t: string)
    ensures FilterByTag(FilterByTag(projects, t), t) == FilterByTag(projects, t)
  {
    FilterKeepsTagged(FilterByTag(projects, t), t);
  }

  /**
   * Every button of the bar has something to show: "All" the whole list, and a tag
   * button at least the project its tag came from.
   */
  lemma ButtonsNeverEmpty(projects: seq<Project>)
    ensures forall b :: b in Buttons(RenderTags(ProjectArray(projects))) ==> OnClick(projects, b) != []
  {
    var bar := RenderTags(ProjectArray(projects));
    forall b | b in Buttons(bar)
      ensures OnClick(projects, b) != []
    {
      if b.ShowTag? {
        var i :| 0 <= i < |Buttons(bar)| && Buttons(bar)[i] == b;
        assert b.tag in bar.tags by {
          assert bar.tags[i - 1] == b.tag;
        }
        var p :| p in projects && b.tag in TagsOf(p);
        assert p in OnClick(projects, b);
      } else {
        assert projects != [] by {
          var t := bar.tags[0];
          assert exists p :: p in projects && t in TagsOf(p);
        }
      }
    }
  }
}
