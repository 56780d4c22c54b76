/** The records the publication list is built from, and the display
    fragments the renderer produces in place of live DOM nodes. */
module PubData {

  datatype Option<T> = None | Some(value: T)

  /** One entry of the `publications` array of publications.json.
      `award` and `links` may be missing from the JSON object; `links` maps
      a link kind (pdf, doi, link, code, project, video, or anything else)
      to its URL. `selected` is the raw JSON number; only 1 selects. */
  datatype Publication = Publication(
    title: string,
    authors: seq<string>,
    venue: string,
    award: Option<string>,
    thumbnail: string,
    selected: int,
    links: Option<map<string, string>>)

  /** A child of the links block: an anchor with its URL and visible
      label, or the single-space text node put between two anchors. */
  datatype LinkNode = Anchor(href: string, text: string) | Space

  /** The `publication-item` element: the thumbnail image reference, the
      title text, the authors markup (inserted as raw HTML), the venue text,
      the award text when an award element is added, and the children of
      the links block when that block is added. */
  datatype Fragment = Fragment(
    thumbnail: string,
    title: string,
    authors: string,
    venue: string,
    award: Option<string>,
    links: Option<seq<LinkNode>>)
}
