# Publications page: slugs and tile projection

A Dafny model of the logic inside the `Publications` page component of a personal homepage built
with Gatsby. The page receives the result of its markdown query as props, turns every markdown edge
into a tile holding the front-matter title, the year, an optional responsive thumbnail and a slug,
and links each tile to `/publications/{slug}`. The slug is
`title.toLowerCase().replace(/\W+/g, '-')`.

The project has three modules:

- `Wrappers` (`wrappers.dfy`): `Option`, for the fields the query may leave out.
- `Slugs` (`slugs.dfy`): ASCII lowercasing, the replacement of every maximal run of non-word
  characters by one `-`, the slug, and the lemmas about them. A word character is one of
  `[A-Za-z0-9_]` (JavaScript `\w` without the `u` flag). Every other character is a non-word
  character, including every non-ASCII one. `Collapse` follows the regex scan: a word character is
  copied, and a non-word character starts a run that is consumed whole and replaced by `-`.
  `CollapseLocal` is an independent, character-by-character definition of the same replacement, and
  `CollapseMatchesLocal` proves that the two agree.
- `Publications` (`publications.dfy`): the query result (`Props` down to the `Fluid` image
  descriptor), the `Tile` record, one entry (`Entry`, the `getPublicationEntry` method), the route
  string, and the projection of the whole page (`EdgesOf`, `Entries`, `Tiles`, `Render`).

What the code does at run time, which is what the model follows:

- `render` passes `map(edges, 'node.frontmatter')` to `getPublicationEntry`. So `title`, `year` and
  `thumbnail.childImageSharp.fluid` are read from the front-matter object itself. The year shown is
  the front-matter `year`. The `years` field in the `PublicationType` declaration has no effect.
- An edge without a node, or a node without front-matter, does not fail. lodash `get` on
  `undefined` returns the default, so such an edge draws a tile with empty captions, no image and
  the empty slug (`RenderMissingFrontmatter`).
- The slug is empty exactly when the title is empty (`SlugShape`), and the link is then
  `/publications/`. Nothing is trimmed. A trailing hyphen appears exactly when the title ends in a
  non-word character. `"GPT-3: Language Models"` therefore gets no trailing hyphen (`SlugGpt3`).

## Model

| member | source | states |
|---|---|---|
| `Slugs.LowerChar` | src/routes/Publications/Publications.tsx:94 | ASCII lowercasing of one character: the result is never upper-case; it is a word character exactly when the input is; it differs from the input exactly for `A`..`Z`, which move by 32 code points |
| `Slugs.ToLower` | src/routes/Publications/Publications.tsx:94 | `toLowerCase` keeps the length and acts character by character; the result has no upper-case letter |
| `Slugs.ToLowerFixesLower` | src/routes/Publications/Publications.tsx:94 | a string without upper-case letters is unchanged by lowercasing |
| `Slugs.ToLowerAppend` | src/routes/Publications/Publications.tsx:94 | lowercasing distributes over concatenation |
| `Slugs.ToLowerIdempotent` | src/routes/Publications/Publications.tsx:94 | lowercasing twice is lowercasing once |
| `Slugs.DropNonWord` | src/routes/Publications/Publications.tsx:94 | consuming one `\W+` match removes exactly the maximal non-word prefix: the rest is a suffix that is empty or starts with a word character, everything removed is non-word, and at least one character is removed when the string starts with a non-word character |
| `Slugs.Collapse` | src/routes/Publications/Publications.tsx:94 | `replace(/\W+/g, '-')`: never longer than its input; only word characters and `-`; no two adjacent hyphens; empty exactly for empty input; the first character is kept if it is a word character and becomes `-` otherwise; an input without upper-case letters gives an output without them |
| `Slugs.CollapseLast` | src/routes/Publications/Publications.tsx:94 | the last character is kept if it is a word character, and a trailing non-word run becomes `-` (no trimming at the end) |
| `Slugs.DropAllNonWord` | src/routes/Publications/Publications.tsx:94 | a string with no word character is consumed entirely by one `\W+` match |
| `Slugs.CollapseAllNonWord` | src/routes/Publications/Publications.tsx:94 | a non-empty string with no word character is replaced by exactly `-` |
| `Slugs.CollapseLocal` | src/routes/Publications/Publications.tsx:94 | the independent character-local definition of the replacement (a word character stays, the last character of a non-word run becomes `-`, every other non-word character disappears); never longer than its input; equal to `Collapse` by `CollapseMatchesLocal` |
| `Slugs.CollapseLocalRun` | src/routes/Publications/Publications.tsx:94 | under the character-local reading, a non-word run at the front still yields one `-` followed by the rest |
| `Slugs.CollapseMatchesLocal` | src/routes/Publications/Publications.tsx:94 | the run-consuming replacement equals the character-local definition (a word character stays, the last character of a non-word run becomes `-`, every other non-word character disappears) on every string |
| `Slugs.CollapseLocalAppend` | src/routes/Publications/Publications.tsx:94 | the character-local reading splits at any boundary with a word character on one side |
| `Slugs.CollapseAppend` | src/routes/Publications/Publications.tsx:94 | the replacement of `a + b` is the replacement of `a` followed by that of `b` when the boundary has a word character on one side |
| `Slugs.CollapseFixesNormal` | src/routes/Publications/Publications.tsx:94 | a string of word characters and single hyphens is a fixed point of the replacement |
| `Slugs.CollapseIdempotent` | src/routes/Publications/Publications.tsx:94 | replacing twice equals replacing once |
| `Slugs.Words` | src/routes/Publications/Publications.tsx:94 | the word-character projection of a string: never longer than the string, and made of word characters only; it is the reference for what the slug keeps (`WordsCollapse`, `SlugWords`) |
| `Slugs.WordsEmpty` | src/routes/Publications/Publications.tsx:94 | a string has no word characters exactly when its word-character projection is empty |
| `Slugs.WordsAll` | src/routes/Publications/Publications.tsx:94 | a string that equals its own word-character projection has only word characters |
| `Slugs.WordsDropNonWord` | src/routes/Publications/Publications.tsx:94 | consuming a non-word run loses no word character |
| `Slugs.WordsCollapse` | src/routes/Publications/Publications.tsx:94 | the word characters of the replacement's output, in order, are those of its input |
| `Slugs.WordsToLower` | src/routes/Publications/Publications.tsx:94 | taking the word characters commutes with lowercasing |
| `Slugs.Slug` | src/routes/Publications/Publications.tsx:94 | the slug expression, lowercasing followed by the replacement; it has no contract of its own, and what it promises is stated by `SlugShape`, `SlugIdempotent`, `SlugWords` and `SlugAllPunctuation` |
| `Slugs.SlugShape` | src/routes/Publications/Publications.tsx:94 | a slug is never longer than its title; it uses only `a`-`z`, `0`-`9`, `_` and `-`, so it has no upper-case letter; it has no two adjacent hyphens; it is empty exactly for the empty title; it starts with `-` exactly when the title starts with a non-word character, and ends with `-` exactly when the title ends with one |
| `Slugs.SlugIdempotent` | src/routes/Publications/Publications.tsx:94 | slugging a slug gives the same slug |
| `Slugs.SlugWords` | src/routes/Publications/Publications.tsx:94 | the word characters of the slug, in order, are the lower-cased word characters of the title |
| `Slugs.SlugAllPunctuation` | src/routes/Publications/Publications.tsx:94 | the slug is exactly `-` if and only if the title is non-empty and has no word character |
| `Slugs.SlugOfWord` | src/routes/Publications/Publications.tsx:94 | a title made only of word characters is just lower-cased |
| `Slugs.SlugJoin` | src/routes/Publications/Publications.tsx:94 | a non-word separator run between two word characters becomes one `-`, and the two sides are slugged independently |
| `Slugs.CollapseJoin` | src/routes/Publications/Publications.tsx:94 | the same split for the replacement alone, on already lower-cased text |
| `Slugs.SlugEmpty` | src/routes/Publications/Publications.tsx:92-94 | the empty (or defaulted) title gives the empty slug |
| `Slugs.SlugTwoWords` | src/routes/Publications/Publications.tsx:94 | two words separated by a space give the lower-cased words joined by one `-` |
| `Slugs.SlugMyPaper` | src/routes/Publications/Publications.tsx:94 | `"My Paper"` gives `"my-paper"` |
| `Slugs.SlugGpt3` | src/routes/Publications/Publications.tsx:94 | `"GPT-3: Language Models"` ends in a word character, so its slug ends in `s`, with no trailing hyphen |
| `Slugs.SlugNotInjective` | src/routes/Publications/Publications.tsx:94 | distinct titles `"A B"` and `"a-b"` share a slug: the page does not make slugs unique |
| `Wrappers.Option.GetOr` | src/routes/Publications/Publications.tsx:92-93 | the defaulting lookup of lodash `get`: a present value is returned as is, an absent one gives the default |
| `Publications.ThumbnailOf` | src/routes/Publications/Publications.tsx:91 | the image is present if and only if the front-matter, `thumbnail`, `childImageSharp` and `fluid` are all present, and it is then that `fluid` descriptor |
| `Publications.TitleOf` | src/routes/Publications/Publications.tsx:92 | `get(publication, 'title', '')`: a present title is returned as given; absent front-matter or an absent title gives `""` |
| `Publications.YearOf` | src/routes/Publications/Publications.tsx:93 | `get(publication, 'year', '')`: a present year is returned as given; absent front-matter or an absent year gives `""` |
| `Publications.Entry` | src/routes/Publications/Publications.tsx:90-98 | `getPublicationEntry`: the tile shows `TitleOf` and `YearOf` of the front-matter, its slug is the slug of the shown title, and its image is `ThumbnailOf` the front-matter |
| `Publications.EntryFields` | src/routes/Publications/Publications.tsx:90-98 | absent front-matter gives the empty tile; a present title or year is shown as given and an absent one as `""`; the slug is the slug of the shown title; the image is `ThumbnailOf` the front-matter |
| `Publications.Route` | src/routes/Publications/Publications.tsx:97 | the link target `/publications/${slug}`: the prefix followed by exactly the slug, so the slug reads back from the route |
| `Publications.RouteOfSlug` | src/routes/Publications/Publications.tsx:97 | the link target is `/publications/` followed by exactly the slug, so the slug can be read back from it, and nothing after the prefix is a `/` (the route is one path segment below `/publications/`) |
| `Publications.RouteInjective` | src/routes/Publications/Publications.tsx:97 | two link targets are equal if and only if their slugs are equal |
| `Publications.RouteEmptyTitle` | src/routes/Publications/Publications.tsx:97 | the empty title links to `/publications/` |
| `Publications.RouteMyPaper` | src/routes/Publications/Publications.tsx:97 | the title `"My Paper"` links to `/publications/my-paper` |
| `Publications.EdgesOf` | src/routes/Publications/Publications.tsx:106 | `get(this.props, 'data.allMarkdownRemark.edges', [])`: an absent `data`, `allMarkdownRemark` or `edges` gives the empty list, and a present edges list is returned unchanged |
| `Publications.FrontmatterOf` | src/routes/Publications/Publications.tsx:107 | the `node.frontmatter` path of one edge: present exactly when both the node and its front-matter are, and then that front-matter |
| `Publications.Entries` | src/routes/Publications/Publications.tsx:107 | one entry per edge, in order, each the edge's `node.frontmatter` (absent when the node or its front-matter is) |
| `Publications.Tiles` | src/routes/Publications/Publications.tsx:113 | one tile per entry, in order, each the tile of that entry |
| `Publications.Render` | src/routes/Publications/Publications.tsx:105-114 | the page draws exactly one tile per edge, and tile `i` is the entry of edge `i` |
| `Publications.RenderPresent` | src/routes/Publications/Publications.tsx:106-113 | a present edges list draws exactly one tile per edge, and tile `i` is the entry of edge `i` |
| `Publications.RenderAbsent` | src/routes/Publications/Publications.tsx:106 | an absent result at any level of `data.allMarkdownRemark.edges` draws no tile |
| `Publications.TilesAppend` | src/routes/Publications/Publications.tsx:113 | mapping entries to tiles commutes with concatenation |
| `Publications.EntriesAppend` | src/routes/Publications/Publications.tsx:107 | extracting front-matter commutes with concatenation |
| `Publications.ProjectAppend` | src/routes/Publications/Publications.tsx:107-113 | the tiles of two edge lists joined are the tiles of the first followed by those of the second: the order of the edges is kept |
| `Publications.RenderMissingFrontmatter` | src/routes/Publications/Publications.tsx:107-113 | an edge without a node or front-matter still draws a tile, with empty captions, no image and the link `/publications/` |
| `Publications.RenderTilesWellFormed` | src/routes/Publications/Publications.tsx:94-98 | every drawn tile has a slug made of slug characters without adjacent hyphens, and has an image only if its edge has front-matter |

## Left out

- Lowercasing is ASCII only. Non-ASCII characters are kept as they are. They are non-word characters either way, so the slug agrees with JavaScript except where `toLowerCase` maps a non-ASCII character to text containing ASCII word characters. Two examples: U+0130 becomes `i` followed by U+0307, and the Kelvin sign U+212A becomes `k`.
- Fields are modelled as present or absent only. lodash `get` returns `null`, not the default, for a field holding `null`. A `null` title would then throw at `.toLowerCase()`. A title that is not a string would also throw there. That crash path is not modelled.
- The image descriptor is carried through unchanged. Its `aspectRatio` is a JavaScript number, modelled as `real`; floating-point behaviour is not modelled. A present but falsy `fluid` value is treated as present.
- The React/JSX output is not modelled: the header text, the container, and the `gatsby-image` `Image` and Gatsby `Link` components it renders. The model stops at the tile records and the route string each link receives.
- Styling is not modelled: the styled-components CSS, the fade-in keyframes and the hover effects. They have no behaviour to state.
- The `graphql` page query is not modelled. Gatsby evaluates it at build time, and the page only consumes its result, which is the `Props` value here.
- The body `html` of each node is selected by the query but never read by the page. The model carries it in `MarkdownNode` and nothing depends on it.
- Slug collisions are not prevented by the page. `SlugNotInjective` shows one collision; there is no uniqueness property to prove.
