/**
 * The Publications page: the query result injected as props is projected onto a list of tiles,
 * one per markdown edge, each carrying the title, the year, the optional responsive image and the
 * slug that names its detail route `/publications/{slug}`.
 *
 * Every field of the query result may be absent; absence is modelled by `Option`, and the
 * defaults are those the page passes to lodash `get`.
 */
module Publications {
  import opened Wrappers
  import opened Slugs

  /** The responsive-image descriptor `childImageSharp.fluid`, passed through untouched. */
  datatype Fluid = Fluid(base64: string, aspectRatio: real, src: string, srcSet: string, sizes: string)

  datatype ChildImageSharp = ChildImageSharp(fluid: Option<Fluid>)

  datatype Thumbnail = Thumbnail(childImageSharp: Option<ChildImageSharp>)

  datatype Frontmatter = Frontmatter(title: Option<string>, year: Option<string>, thumbnail: Option<Thumbnail>)

  datatype MarkdownNode = MarkdownNode(html: Option<string>, frontmatter: Option<Frontmatter>)

  datatype Edge = Edge(node: Option<MarkdownNode>)

  datatype AllMarkdownRemark = AllMarkdownRemark(edges: Option<seq<Edge>>)

  datatype Data = Data(allMarkdownRemark: Option<AllMarkdownRemark>)

  datatype Props = Props(data: Option<Data>)

  /** What one tile shows: the title and year captions, the image if any, and the slug of its link. */
  datatype Tile = Tile(title: string, year: string, thumbnail: Option<Fluid>, slug: string)

  const RoutePrefix: string := "/publications/"

  // ---------------------------------------------------------------------------
  // One entry

  /** `get(publication, 'thumbnail.childImageSharp.fluid')`: present only when every link of the path is. */
  function ThumbnailOf(fm: Option<Frontmatter>): (r: Option<Fluid>)
    ensures r.Some? <==>
      && fm.Some? && fm.value.thumbnail.Some?
      && fm.value.thumbnail.value.childImageSharp.Some?
      && fm.value.thumbnail.value.childImageSharp.value.fluid.Some?
    ensures r.Some? ==> r == fm.value.thumbnail.value.childImageSharp.value.fluid
  {
    match fm
    case None => None
    case Some(f) =>
      match f.thumbnail
      case None => None
      case Some(t) =>
        match t.childImageSharp
        case None => None
        case Some(c) => c.fluid
  }

  /** `get(publication, 'title', '')`. */
  function TitleOf(fm: Option<Frontmatter>): (r: string)
    ensures fm.Some? && fm.value.title.Some? ==> r == fm.value.title.value
    ensures fm.None? || fm.value.title.None? ==> r == ""
  {
    if fm.Some? then fm.value.title.GetOr("") else ""
  }

  /** `get(publication, 'year', '')`. */
  function YearOf(fm: Option<Frontmatter>): (r: string)
    ensures fm.Some? && fm.value.year.Some? ==> r == fm.value.year.value
    ensures fm.None? || fm.value.year.None? ==> r == ""
  {
    if fm.Some? then fm.value.year.GetOr("") else ""
  }

  /** `getPublicationEntry`: the tile drawn for one front-matter object, with the slug of its title. */
  function Entry(fm: Option<Frontmatter>): (t: Tile)
    ensures t.title == TitleOf(fm) && t.year == YearOf(fm)
    ensures t.slug == Slug(t.title)
    ensures t.thumbnail == ThumbnailOf(fm)
  {
    var title := TitleOf(fm);
    Tile(title, YearOf(fm), ThumbnailOf(fm), Slug(title))
  }

  /** The link target of a tile, `/publications/${slug}`. */
  function Route(slug: string): (r: string)
    ensures |r| == |RoutePrefix| + |slug|
    ensures r[..|RoutePrefix|] == RoutePrefix && r[|RoutePrefix|..] == slug
  {
    RoutePrefix + slug
  }

  /** The defaults of one entry: a present title or year is shown as given and an absent one as the
      empty string; the slug always comes from the shown title; the image is the `fluid` descriptor. */
  lemma EntryFields(fm: Option<Frontmatter>)
    ensures fm.None? ==> Entry(fm) == Tile("", "", None, "")
    ensures fm.Some? && fm.value.title.Some? ==> Entry(fm).title == fm.value.title.value
    ensures fm.Some? && fm.value.title.None? ==> Entry(fm).title == "" && Entry(fm).slug == ""
    ensures fm.Some? && fm.value.year.Some? ==> Entry(fm).year == fm.value.year.value
    ensures fm.Some? && fm.value.year.None? ==> Entry(fm).year == ""
    ensures Entry(fm).slug == Slug(Entry(fm).title)
    ensures Entry(fm).thumbnail == ThumbnailOf(fm)
  {
  }

  /** A route is the prefix followed by the slug, so the slug can be read back from it, and since a
      slug holds no `/` the route names exactly one path segment below `/publications/`. */
  lemma RouteOfSlug(title: string)
    ensures |Route(Slug(title))| == |RoutePrefix| + |Slug(title)|
    ensures Route(Slug(title))[..|RoutePrefix|] == RoutePrefix
    ensures Route(Slug(title))[|RoutePrefix|..] == Slug(title)
    ensures forall i :: |RoutePrefix| <= i < |Route(Slug(title))| ==> Route(Slug(title))[i] != '/'
  {
    SlugShape(title);
    var r := Route(Slug(title));
    assert forall i :: |RoutePrefix| <= i < |r| ==> r[i] == Slug(title)[i - |RoutePrefix|];
  }

  /** Two tiles link to the same route exactly when their slugs are equal. */
  lemma RouteInjective(s1: string, s2: string)
    ensures Route(s1) == Route(s2) <==> s1 == s2
  {
    if Route(s1) == Route(s2) {
      assert s1 == Route(s1)[|RoutePrefix|..];
    }
  }

  lemma RouteEmptyTitle()
    ensures Route(Slug("")) == "/publications/"
  {
  }

  lemma RouteMyPaper(title: string)
    requires title == "My Paper"
    ensures Route(Slug(title)) == "/publications/my-paper"
  {
    SlugMyPaper(title);
  }

  // ---------------------------------------------------------------------------
  // The whole page

  /** `get(this.props, 'data.allMarkdownRemark.edges', [])`. */
  function EdgesOf(props: Props): (r: seq<Edge>)
    ensures (props.data.None? || props.data.value.allMarkdownRemark.None?
             || props.data.value.allMarkdownRemark.value.edges.None?) ==> r == []
    ensures (props.data.Some? && props.data.value.allMarkdownRemark.Some?
             && props.data.value.allMarkdownRemark.value.edges.Some?)
            ==> r == props.data.value.allMarkdownRemark.value.edges.value
  {
    match props.data
    case None => []
    case Some(d) =>
      match d.allMarkdownRemark
      case None => []
      case Some(m) => m.edges.GetOr([])
  }

  /** The `'node.frontmatter'` path of one edge, absent when either link is. */
  function FrontmatterOf(e: Edge): (r: Option<Frontmatter>)
    ensures r.Some? <==> e.node.Some? && e.node.value.frontmatter.Some?
    ensures r.Some? ==> r == e.node.value.frontmatter
  {
    match e.node
    case None => None
    case Some(n) => n.frontmatter
  }

  /** `map(edges, 'node.frontmatter')`: one entry per edge, in order. */
  function Entries(edges: seq<Edge>): (r: seq<Option<Frontmatter>>)
    ensures |r| == |edges|
    ensures forall i :: 0 <= i < |edges| ==> r[i] == FrontmatterOf(edges[i])
  {
    if edges == [] then [] else [FrontmatterOf(edges[0])] + Entries(edges[1..])
  }

  /** `entries.map(this.getPublicationEntry)`: one tile per entry, in order. */
  function Tiles(entries: seq<Option<Frontmatter>>): (r: seq<Tile>)
    ensures |r| == |entries|
    ensures forall i :: 0 <= i < |entries| ==> r[i] == Entry(entries[i])
  {
    if entries == [] then [] else [Entry(entries[0])] + Tiles(entries[1..])
  }

  /** The tiles `render` draws inside the container, in the order the query returned the edges. */
  function Render(props: Props): (r: seq<Tile>)
    ensures |r| == |EdgesOf(props)|
    ensures forall i :: 0 <= i < |r| ==> r[i] == Entry(FrontmatterOf(EdgesOf(props)[i]))
  {
    Tiles(Entries(EdgesOf(props)))
  }

  /** A present edges list is drawn edge by edge: the page has exactly as many tiles as the list has
      edges, and tile `i` is the entry of edge `i`. */
  lemma RenderPresent(props: Props, edges: seq<Edge>)
    requires props.data.Some? && props.data.value.allMarkdownRemark.Some?
    requires props.data.value.allMarkdownRemark.value.edges == Some(edges)
    ensures |Render(props)| == |edges|
    ensures forall i :: 0 <= i < |edges| ==> Render(props)[i] == Entry(FrontmatterOf(edges[i]))
  {
  }

  /** An absent result at any level of `data.allMarkdownRemark.edges` draws no tile. */
  lemma RenderAbsent(props: Props)
    requires props.data.None? || props.data.value.allMarkdownRemark.None?
             || props.data.value.allMarkdownRemark.value.edges.None?
    ensures Render(props) == []
  {
  }

  /** Projection keeps order: the tiles of two lists of edges, one after the other, are the tiles of
      the concatenated list. */
  lemma {:induction false} TilesAppend(a: seq<Option<Frontmatter>>, b: seq<Option<Frontmatter>>)
    ensures Tiles(a + b) == Tiles(a) + Tiles(b)
    decreases |a|
  {
    if a == [] {
      assert a + b == b;
    } else {
      assert (a + b)[1..] == a[1..] + b;
      TilesAppend(a[1..], b);
    }
  }

  lemma {:induction false} EntriesAppend(a: seq<Edge>, b: seq<Edge>)
    ensures Entries(a + b) == Entries(a) + Entries(b)
    decreases |a|
  {
    if a == [] {
      assert a + b == b;
    } else {
      assert (a + b)[1..] == a[1..] + b;
      EntriesAppend(a[1..], b);
    }
  }

  /** The tiles of the page for one list of edges followed by another are the tiles of the first
      list followed by those of the second: the query's order is kept end to end. */
  lemma ProjectAppend(a: seq<Edge>, b: seq<Edge>)
    ensures Tiles(Entries(a + b)) == Tiles(Entries(a)) + Tiles(Entries(b))
  {
    EntriesAppend(a, b);
    TilesAppend(Entries(a), Entries(b));
  }

  /** A node without front-matter, or an edge without a node, still draws a tile: an empty one that
      links to `/publications/`. */
  lemma RenderMissingFrontmatter(props: Props, i: nat)
    requires i < |EdgesOf(props)| && FrontmatterOf(EdgesOf(props)[i]).None?
    ensures Render(props)[i] == Tile("", "", None, "")
    ensures Route(Render(props)[i].slug) == "/publications/"
  {
  }

  /** Every tile drawn has a slug of the slug alphabet without doubled hyphens, and its image is
      present only when the whole `thumbnail.childImageSharp.fluid` path is. */
  lemma RenderTilesWellFormed(props: Props, i: nat)
    requires i < |Render(props)|
    ensures forall k :: 0 <= k < |Render(props)[i].slug| ==> IsSlugChar(Render(props)[i].slug[k])
    ensures NoAdjacentHyphens(Render(props)[i].slug)
    ensures Render(props)[i].thumbnail.Some? ==> FrontmatterOf(EdgesOf(props)[i]).Some?
  {
    SlugShape(Render(props)[i].title);
  }
}
