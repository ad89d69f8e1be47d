# Portfolio page script: escaping, description markup, featured list and tag filter

A Dafny model of the pure logic inside `assets/js/main.js`, the script of a static
portfolio site. The script fetches `/data/projects.json` once and renders three
things from it: a featured list, a projects grid, and a tag filter bar. The model
covers the parts of that rendering that compute something:

- `escapeHtml`: five chained global replacements. They turn `&`, `<`, `>`, `"` and
  `'` into the character references `&amp;`, `&lt;`, `&gt;`, `&quot;` and `&#039;`
  (section 13.1.4 of the WHATWG HTML Living Standard).
- The description markup of a grid card: the escaped text with every newline
  replaced by `<br>`.
- The featured list: `projects.slice(0, 3)`, with missing fields falling back to
  defaults before they are escaped.
- The grid cards: which optional lines appear, and the escaped text of each.
- The tag bar: the distinct tags in first-seen order (`Array.from(new Set(flatMap))`).
  Below it sit an "All" button and the per-tag filters. Every click filters again
  from the full project list.

Modules follow the script's structure:

| file | module | what it holds |
|---|---|---|
| wrappers.dfy | `Wrappers` | `Option`, used for absent JSON fields and failed decodes |
| text.dfy | `Text` | `Count`, and `ReplaceAll`: the `s.replace(/c/g, rep)` of one character |
| escape.dfy | `Escape` | `EscapeHtml` as written (the chain); `Encode`, a per-character reference definition; `Decode`, a strict decoder |
| description.dfy | `Description` | `RenderDescription`, and `RestoreNewlines` to undo the `<br>` substitution |
| seqs.dfy | `Seqs` | `FirstIndex`, `Distinct` (first-occurrence deduplication), `IsSubsequence` |
| projects.dfy | `Projects` | `Project`, `Feed`, and the featured and grid views |
| tagfilter.dfy | `TagFilter` | `AllTags`, `RenderTags`, `FilterByTag`, `OnClick`, and replaying a run of clicks |

JavaScript truthiness is modelled explicitly. `x || fallback` falls back when a field
is absent *or* the empty string (`Projects.OrElse`). `p.tags || []` treats only a
missing tag list as empty, because an empty array is truthy (`Projects.TagsOf`). The
`Array.isArray(projects)` guards become the `Feed.NotAnArray` case.

`Escape.Decode` is not part of the script. It is the partner that the escaping
properties are stated against. It accepts a special character only as the `&` that
opens one of the five references, so `Decode(t) == Some(s)` holds exactly when
`EscapeHtml(s) == t`.

## Model

| member | source | states |
|---|---|---|
| Text.ReplaceAll | assets/js/main.js:157-161 | a one-character global replace adds no character beyond the replacement's, removes every occurrence of the pattern when the replacement lacks it, and never shortens text when the replacement is non-empty |
| Escape.EscapeHtml | assets/js/main.js:155-162 | the escaped text contains none of `<`, `>`, `"`, `'`, and is at least as long as the input |
| Escape.EscapeHtmlChar | assets/js/main.js:157-161 | on one character the five-step chain yields exactly that character's reference; because `&` goes first, a later step's `&` is never re-escaped |
| Escape.EscapeHtmlIsPerCharEncoding | assets/js/main.js:157-161 | the chain equals the per-character encoding `&`→`&amp;`, `<`→`&lt;`, `>`→`&gt;`, `"`→`&quot;`, `'`→`&#039;`, with every other character kept in order |
| Escape.DecodeIffEscaped | assets/js/main.js:155-162 | decoding the five references gives back the original text, and a text decodes to `s` only if it is exactly the escaping of `s` |
| Escape.EscapeHtmlInjective | assets/js/main.js:155-162 | distinct texts never escape to the same markup |
| Escape.EscapeHtmlAmpersands | assets/js/main.js:156-161 | every `&` in escaped text begins one of the five references |
| Escape.EscapeHtmlFixesPlainText | assets/js/main.js:155-162 | escaping leaves a text unchanged exactly when it contains none of the five special characters |
| Description.RenderDescription | assets/js/main.js:92 | the description markup contains no newline and no quote character |
| Description.RenderDescriptionBreaks | assets/js/main.js:92 | every `<` in the description markup starts an inserted `<br>`, and there is one `<br>` per newline of the description |
| Description.RenderDescriptionRoundTrip | assets/js/main.js:92 | turning each `<br>` back into a newline and decoding the references recovers the description |
| Seqs.Distinct | assets/js/main.js:136 | the deduplicated list has no duplicates, contains every input element, keeps elements in first-occurrence order, and is empty only for empty input |
| Seqs.DistinctUnique | assets/js/main.js:136 | those properties determine the deduplicated list: any list with them equals `Distinct` |
| TagFilter.AllTags | assets/js/main.js:136 | the flattened tag list holds exactly the tags of some project, where a missing tag list counts as empty |
| TagFilter.AllTagsEmpty | assets/js/main.js:136-137 | there are no tags exactly when every project's tag list is missing or empty |
| TagFilter.RenderTags | assets/js/main.js:135-137 | the bar is hidden for a non-array feed or when no project has a tag; otherwise it lists each tag of each project once, in the order of first occurrence |
| TagFilter.FilterByTag | assets/js/main.js:148 | the filter keeps exactly the projects tagged `t`, each with its original multiplicity, as a subsequence of the input |
| TagFilter.OnClick | assets/js/main.js:141-149 | "All" shows the full unmodified list; a tag button shows exactly the projects of the full list that carry the tag, each as often as in the list and in the list's order |
| TagFilter.FiltersNotCumulative | assets/js/main.js:141-149 | after any run of clicks the grid shows what the last click alone shows, so filters never combine |
| TagFilter.FilterIdempotent | assets/js/main.js:148 | applying the tag filter to a list it already produced, with the same tag, changes nothing (a fact about the filter alone; the page itself always filters the full list) |
| TagFilter.Buttons | assets/js/main.js:138-152 | a hidden bar has no buttons; a shown bar has "All" first, then one button per tag in the bar's order |
| TagFilter.ButtonsNeverEmpty | assets/js/main.js:138-152 | no button of a rendered bar shows an empty grid |
| Projects.FeaturedView | assets/js/main.js:42-53 | a featured entry's title, description and tags are markup-free and decode back to the project's text; a missing or empty title or description shows as empty |
| Projects.RenderFeatured | assets/js/main.js:36-40 | the featured list shows the first `min(3, n)` projects in feed order, and nothing for a non-array feed |
| Projects.EscapeEach | assets/js/main.js:47 | each tag is escaped in place, markup-free and decodable back to the tag |
| Projects.OptionalLine | assets/js/main.js:76-86 | subtitle, date and location appear only when truthy, and then as escaped text decoding back to the field |
| Projects.CardView | assets/js/main.js:67-101 | the alt text appears only with an image and falls back to "Project image"; the title, tags and the subtitle, date and location lines (present only when truthy) are markup-free and decode back to the field; the description has no raw newline, carries only `<br>` tags and decodes back once they are turned back into newlines; link and repository buttons appear exactly when those fields are truthy |
| Projects.RenderGrid | assets/js/main.js:58-61 | the grid has one card per project in feed order, and nothing for a non-array feed |

## Left out

- DOM access and mutation (`getElementById`, `innerHTML`, `createElement`, `addEventListener`, `classList`) are browser plumbing. The checks that an anchor element exists (lines 37-38, 59-60, 133-135) are not modelled, because the model has no document. Only the `Array.isArray` half of each guard is kept.
- The `/data/projects.json` fetch, its status check and its silent catch (lines 25-34) are asynchronous I/O. The model starts from the parsed `Feed`.
- The resume-link `HEAD` probe (lines 16-21), the theme toggle with its `localStorage` write (lines 6-13), and the current-year stamp (lines 3-4) are left out. They are network, storage and clock effects with no computed result.
- `encodeURI` on links and images (lines 50-51, 69, 107, 116) is a foreign call.
- Projects.FeaturedView: links and repository URLs appear only as presence flags (`hasLink`, `hasRepo`), because their text goes through `encodeURI`.
- Projects.CardView: the image URL, link and repository URL appear only as presence flags, because their text goes through `encodeURI`. The bullet shown between date and location (line 82) and the wrapper shown when either is present (line 77) are presentation.
- Template markup, CSS classes and inline SVG icons are presentation strings with no logic.
- `String(str)` coercion in `escapeHtml` (line 156), and JSON values of the wrong type, are not modelled: the model takes strings only. A truthy `tags` that is not an array makes `.map` throw at line 47 or 97. A `null` entry makes the field reads at line 44 or 67 throw. The `catch` at line 33 swallows the error, and the renders after it do not run. The model treats the three renders as independent functions of a well-typed feed.
- Characters are Dafny characters (Unicode scalar values), not UTF-16 code units. None of the five patterns or `\n` is a surrogate, so the replacements act the same way.
- The `$` substitution patterns of `String.prototype.replace` are not modelled. None of the replacement strings used (`&amp;`, `&lt;`, `&gt;`, `&quot;`, `&#039;`, `<br>`) contains `$`.
