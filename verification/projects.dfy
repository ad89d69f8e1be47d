/**
 * The project feed and the two lists rendered from it: the featured list (the first
 * three projects) and the projects grid (one card per project). Each view holds the
 * text the templates interpolate, already escaped; template markup, CSS classes and
 * icons carry no logic and are not part of it.
 */
module Projects {
  import opened Wrappers
  import opened Escape
  import opened Description

  /** One entry of `/data/projects.json`; every field may be missing. */
  datatype Project = Project(
    title: Option<string>,
    subtitle: Option<string>,
    date: Option<string>,
    location: Option<string>,
    description: Option<string>,
    tags: Option<seq<string>>,
    image: Option<string>,
    link: Option<string>,
    repo: Option<string>)

  /** The parsed feed: the array of projects the renderers expect, or any other JSON value. */
  datatype Feed = ProjectArray(items: seq<Project>) | NotAnArray

  /** JavaScript truthiness of an optional string field: present and non-empty. */
  predicate Truthy(field: Option<string>) {
    field.Some? && field.value != ""
  }

  /** `field || fallback`: an absent or empty field falls back. */
  function OrElse(field: Option<string>, fallback: string): string {
    if Truthy(field) then field.value else fallback
  }

  /** A project's tags; a missing list counts as empty (an empty array is truthy). */
  function TagsOf(p: Project): seq<string> {
    p.tags.GetOr([])
  }

  /** `escapeHtml` applied to every tag, in order. */
  function EscapeEach(tags: seq<string>): (r: seq<string>)
    ensures |r| == |tags|
    ensures forall i :: 0 <= i < |r| ==> MarkupFree(r[i]) && Decode(r[i]) == Some(tags[i])
  {
    assert forall i :: 0 <= i < |tags| ==> Decode(EscapeHtml(tags[i])) == Some(tags[i]) by {
      forall i | 0 <= i < |tags| {
        DecodeIffEscaped(tags[i], EscapeHtml(tags[i]));
      }
    }
    seq(|tags|, i requires 0 <= i < |tags| => EscapeHtml(tags[i]))
  }

  /** What one entry of the featured list shows. */
  datatype FeaturedItem = FeaturedItem(
    title: string,
    description: string,
    tags: seq<string>,
    hasLink: bool,
    hasRepo: bool)

  /**
   * A featured entry shows the title and description (empty when missing) and every
   * tag, each as literal text that decodes back to the project's own text.
   */
  function FeaturedView(p: Project): (v: FeaturedItem)
    ensures MarkupFree(v.title) && Decode(v.title) == Some(OrElse(p.title, ""))
    ensures MarkupFree(v.description) && Decode(v.description) == Some(OrElse(p.description, ""))
    ensures |v.tags| == |TagsOf(p)|
    ensures forall i :: 0 <= i < |v.tags| ==> MarkupFree(v.tags[i]) && Decode(v.tags[i]) == Some(TagsOf(p)[i])
    ensures v.hasLink <==> Truthy(p.link)
    ensures v.hasRepo <==> Truthy(p.repo)
  {
    var title, description := OrElse(p.title, ""), OrElse(p.description, "");
    DecodeIffEscaped(title, EscapeHtml(title));
    DecodeIffEscaped(description, EscapeHtml(description));
    FeaturedItem(EscapeHtml(title), EscapeHtml(description), EscapeEach(TagsOf(p)), Truthy(p.link), Truthy(p.repo))
  }

  /** How many projects the featured list shows at most: `projects.slice(0, 3)`. */
  const FeaturedCount: nat := 3

  /**
   * The featured list: the first three projects (all of them when there are fewer), in
   * feed order; nothing when the feed is not an array.
   */
  function RenderFeatured(feed: Feed): (r: seq<FeaturedItem>)
    ensures feed.NotAnArray? ==> r == []
    ensures feed.ProjectArray? ==>
      && |r| == (if |feed.items| < FeaturedCount then |feed.items| else FeaturedCount)
      && forall i :: 0 <= i < |r| ==> r[i] == FeaturedView(feed.items[i])
  {
    match feed
    case NotAnArray => []
    case ProjectArray(projects) =>
      var featured := if |projects| <= FeaturedCount then projects else projects[..FeaturedCount];
      seq(|featured|, i requires 0 <= i < |featured| => FeaturedView(featured[i]))
  }

  /** What one card of the projects grid shows. */
  datatype Card = Card(
    imageAlt: Option<string>,
    title: string,
    subtitle: Option<string>,
    date: Option<string>,
    location: Option<string>,
    description: string,
    tags: seq<string>,
    hasLink: bool,
    hasRepo: bool)

  /** An optional line of the card: shown, escaped, only when the field is truthy. */
  function OptionalLine(field: Option<string>): (r: Option<string>)
    ensures r.Some? <==> Truthy(field)
    ensures r.Some? ==> MarkupFree(r.value) && Decode(r.value) == Some(field.value)
  {
    if Truthy(field) then
      DecodeIffEscaped(field.value, EscapeHtml(field.value));
      Some(EscapeHtml(field.value))
    else
      None
  }

  /**
   * A grid card. The image's alt text is the title, or "Project image" when the title
   * is missing, and appears only with an image; subtitle, date and location appear
   * only when given; the description keeps its newlines as line-break tags. Every
   * text is literal: it holds no markup but those tags and decodes back to the
   * project's own text.
   */
  function CardView(p: Project): (c: Card)
    ensures c.imageAlt.Some? <==> Truthy(p.image)
    ensures c.imageAlt.Some? ==>
      MarkupFree(c.imageAlt.value) && Decode(c.imageAlt.value) == Some(OrElse(p.title, "Project image"))
    ensures MarkupFree(c.title) && Decode(c.title) == Some(OrElse(p.title, ""))
    ensures c.subtitle.Some? <==> Truthy(p.subtitle)
    ensures c.subtitle.Some? ==> MarkupFree(c.subtitle.value) && Decode(c.subtitle.value) == Some(p.subtitle.value)
    ensures c.date.Some? <==> Truthy(p.date)
    ensures c.date.Some? ==> MarkupFree(c.date.value) && Decode(c.date.value) == Some(p.date.value)
    ensures c.location.Some? <==> Truthy(p.location)
    ensures c.location.Some? ==> MarkupFree(c.location.value) && Decode(c.location.value) == Some(p.location.value)
    ensures '\n' !in c.description && OnlyBreakTags(c.description)
    ensures Decode(RestoreNewlines(c.description)) == Some(OrElse(p.description, ""))
    ensures |c.tags| == |TagsOf(p)|
    ensures forall i :: 0 <= i < |c.tags| ==> MarkupFree(c.tags[i]) && Decode(c.tags[i]) == Some(TagsOf(p)[i])
    ensures c.hasLink <==> Truthy(p.link)
    ensures c.hasRepo <==> Truthy(p.repo)
  {
    var title, alt, description := OrElse(p.title, ""), OrElse(p.title, "Project image"), OrElse(p.description, "");
    DecodeIffEscaped(title, EscapeHtml(title));
    DecodeIffEscaped(alt, EscapeHtml(alt));
    RenderDescriptionBreaks(description);
    RenderDescriptionRoundTrip(description);
    Card(
      if Truthy(p.image) then Some(EscapeHtml(alt)) else None,
      EscapeHtml(title),
      OptionalLine(p.subtitle),
      OptionalLine(p.date),
      OptionalLine(p.location),
      RenderDescription(description),
      EscapeEach(TagsOf(p)),
      Truthy(p.link),
      Truthy(p.repo))
  }

  /** The projects grid: one card per project, in feed order; nothing for a non-array. */
  function RenderGrid(feed: Feed): (r: seq<Card>)
    ensures feed.NotAnArray? ==> r == []
    ensures feed.ProjectArray? ==>
      |r| == |feed.items| && forall i :: 0 <= i < |r| ==> r[i] == CardView(feed.items[i])
  {
    match feed
    case NotAnArray => []
    case ProjectArray(projects) => seq(|projects|, i requires 0 <= i < |projects| => CardView(projects[i]))
  }
}
