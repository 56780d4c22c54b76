/** The publication renderer: one publication record becomes one
    `publication-item` fragment (thumbnail, title, highlighted authors,
    venue with optional award, optional links block). `Render` says what
    the fragment is; `CreatePublicationElement` builds it the way the page
    script does, with a loop over the authors and a `firstAdded` flag
    threaded through the six link checks. */
module Renderer {
  import opened PubData
  import opened Text

  // ---------------------------------------------------------------------
  // Authors

  /** The site owner's name token; an author containing it is highlighted. */
  const HighlightedName := "D Garg"
  const HighlightOpen := "<span class=\"highlight-name\">"
  const HighlightClose := "</span>"
  const AuthorSeparator := ", "

  /** One author as it appears in the authors markup (raw, not escaped). */
  function Decorate(author: string): string {
    if Contains(author, HighlightedName) then HighlightOpen + author + HighlightClose else author
  }

  function Decorated(authors: seq<string>): seq<string> {
    seq(|authors|, i requires 0 <= i < |authors| => Decorate(authors[i]))
  }

  /** The authors markup of a publication. */
  function AuthorsHtml(authors: seq<string>): string {
    Join(Decorated(authors), AuthorSeparator)
  }

  /** Where author `i` starts in the authors markup. */
  function AuthorStart(authors: seq<string>, i: nat): nat
    requires i <= |authors|
  {
    Offset(Decorated(authors), AuthorSeparator, i)
  }

  /** An author is wrapped in the highlight marker if and only if the name
      token occurs in it; every other author is kept verbatim. */
  lemma HighlightIff(author: string)
    ensures (exists k :: OccursAt(author, HighlightedName, k)) ==>
      Decorate(author) == HighlightOpen + author + HighlightClose
    ensures !(exists k :: OccursAt(author, HighlightedName, k)) ==> Decorate(author) == author
    ensures Decorate(author) == HighlightOpen + author + HighlightClose <==>
      exists k :: OccursAt(author, HighlightedName, k)
  {
    ContainsIff(author, HighlightedName);
  }

  /** Layout of the authors markup: author `i` (highlighted or verbatim)
      sits at `AuthorStart(authors, i)`, exactly one ", " follows every
      author but the last, nothing precedes the first author and nothing
      follows the last, so there are n - 1 separators for n authors. */
  lemma AuthorsLayout(authors: seq<string>, i: nat)
    requires i < |authors|
    ensures AuthorStart(authors, 0) == 0
    ensures var html, s, a := AuthorsHtml(authors), AuthorStart(authors, i), authors[i];
      var shown := if Contains(a, HighlightedName) then HighlightOpen + a + HighlightClose else a;
      s + |shown| <= |html| && html[s..s + |shown|] == shown &&
      (i + 1 < |authors| ==>
        AuthorStart(authors, i + 1) == s + |shown| + |AuthorSeparator| <= |html| &&
        html[s + |shown|..AuthorStart(authors, i + 1)] == AuthorSeparator) &&
      (i + 1 == |authors| ==> s + |shown| == |html|)
  {
    JoinLayout(Decorated(authors), AuthorSeparator, i);
  }

  /** With no authors the markup is empty. */
  lemma NoAuthors()
    ensures AuthorsHtml([]) == ""
  {
  }

  /** Three authors, the middle one the site owner. */
  lemma HighlightExample()
    ensures AuthorsHtml(["A B", "D Garg", "C D"]) ==
      "A B" + AuthorSeparator + HighlightOpen + "D Garg" + HighlightClose + AuthorSeparator + "C D"
  {
    var authors := ["A B", "D Garg", "C D"];
    assert Contains("D Garg", HighlightedName) by {
      assert "D Garg"[..6] == HighlightedName;
    }
    var d := Decorated(authors);
    assert d[0] == "A B";
    assert d[1] == HighlightOpen + "D Garg" + HighlightClose;
    assert d[2] == "C D";
    assert d[..2][..1] == ["A B"];
    assert Join(d[..2], AuthorSeparator) == "A B" + AuthorSeparator + d[1];
  }

  /** Adding one more author appends a separator (unless it is the first
      author) and the author as shown. */
  lemma AuthorsHtmlStep(authors: seq<string>, i: nat)
    requires i < |authors|
    ensures AuthorsHtml(authors[..i + 1]) ==
      AuthorsHtml(authors[..i]) + (if i > 0 then AuthorSeparator else "") + Decorate(authors[i])
  {
    var d := Decorated(authors[..i + 1]);
    assert d[..i] == Decorated(authors[..i]);
    assert d[i] == Decorate(authors[i]);
    if i == 0 {
      assert AuthorsHtml(authors[..i]) == "";
    }
  }

  /** Builds the authors markup as the page script does: one author at a
      time, each followed by ", " unless it is the last. */
  method FormatAuthors(authors: seq<string>) returns (html: string)
    ensures html == AuthorsHtml(authors)
  {
    html := "";
    var i := 0;
    while i < |authors|
      invariant 0 <= i <= |authors|
      invariant html == AuthorsHtml(authors[..i]) + (if 0 < i < |authors| then AuthorSeparator else "")
    {
      var author := authors[i];
      var shown := if Contains(author, HighlightedName) then HighlightOpen + author + HighlightClose else author;
      AuthorsHtmlStep(authors, i);
      html := html + shown;
      if i < |authors| - 1 {
        html := html + AuthorSeparator;
      }
      i := i + 1;
    }
    assert authors[..i] == authors;
  }

  // ---------------------------------------------------------------------
  // Links

  /** The link kinds with their button labels, in the order the buttons
      are added. */
  const LinkKinds: seq<(string, string)> := [
    ("pdf", "[PDF]"), ("doi", "[DOI]"), ("link", "[Link]"),
    ("code", "[Code]"), ("project", "[Project Page]"), ("video", "[Video]")]

  /** A kind counts as present when its URL is there and truthy, i.e. a
      non-empty string. */
  predicate Present(links: map<string, string>, key: string) {
    key in links && links[key] != ""
  }

  /** The anchors for the present kinds among the first `n` kinds, in
      table order. */
  function Buttons(links: map<string, string>, n: nat): seq<LinkNode>
    requires n <= |LinkKinds|
  {
    if n == 0 then []
    else
      var key := LinkKinds[n - 1].0;
      Buttons(links, n - 1) + (if Present(links, key) then [Anchor(links[key], LinkKinds[n - 1].1)] else [])
  }

  /** Indices into `LinkKinds`, among the first `n`, of the kinds present
      in `links`. */
  function PresentKinds(links: map<string, string>, n: nat): seq<nat>
    requires n <= |LinkKinds|
  {
    if n == 0 then []
    else PresentKinds(links, n - 1) + (if Present(links, LinkKinds[n - 1].0) then [n - 1] else [])
  }

  /** The present kinds are listed in strictly increasing table order, and
      a kind is listed exactly when it is present. */
  lemma {:induction false} PresentKindsOrdered(links: map<string, string>, n: nat)
    requires n <= |LinkKinds|
    ensures var ks := PresentKinds(links, n);
      (forall i :: 0 <= i < |ks| ==> ks[i] < n) &&
      (forall i, j :: 0 <= i < j < |ks| ==> ks[i] < ks[j]) &&
      (forall k :: 0 <= k < n ==> (k in ks <==> Present(links, LinkKinds[k].0)))
  {
    if n > 0 {
      PresentKindsOrdered(links, n - 1);
    }
  }

  /** Button `i` is the anchor of the `i`-th present kind. */
  lemma {:induction false} ButtonsFollowKinds(links: map<string, string>, n: nat)
    requires n <= |LinkKinds|
    ensures var ks, bs := PresentKinds(links, n), Buttons(links, n);
      |bs| == |ks| &&
      forall i :: 0 <= i < |ks| ==>
        ks[i] < |LinkKinds| && Present(links, LinkKinds[ks[i]].0) &&
        bs[i] == Anchor(links[LinkKinds[ks[i]].0], LinkKinds[ks[i]].1)
  {
    if n > 0 {
      ButtonsFollowKinds(links, n - 1);
      PresentKindsOrdered(links, n - 1);
    }
  }

  /** `nodes` with a single space between each consecutive pair. */
  function Spaced(nodes: seq<LinkNode>): seq<LinkNode> {
    if |nodes| == 0 then []
    else if |nodes| == 1 then [nodes[0]]
    else Spaced(nodes[..|nodes| - 1]) + [Space, nodes[|nodes| - 1]]
  }

  /** The nodes sit at the even positions and single spaces at the odd
      ones, so the result starts and ends with a node. */
  lemma {:induction false} SpacedShape(nodes: seq<LinkNode>)
    ensures |Spaced(nodes)| == if |nodes| == 0 then 0 else 2 * |nodes| - 1
    ensures forall j :: 0 <= j < |Spaced(nodes)| ==>
      Spaced(nodes)[j] == if j % 2 == 0 then nodes[j / 2] else Space
  {
    if |nodes| > 1 {
      var init := nodes[..|nodes| - 1];
      SpacedShape(init);
      assert Spaced(nodes) == Spaced(init) + [Space, nodes[|nodes| - 1]];
    }
  }

  /** The children of the links block of a publication whose `links`
      object is present. */
  function LinksBlock(links: map<string, string>): seq<LinkNode> {
    Spaced(Buttons(links, |LinkKinds|))
  }

  /** The links block lists one anchor per present kind, in the order pdf,
      doi, link, code, project, video, each with its URL and label; anchors
      and single spaces alternate, starting and ending with an anchor. */
  lemma LinksBlockLayout(links: map<string, string>)
    ensures var ks, r := PresentKinds(links, |LinkKinds|), LinksBlock(links);
      |r| == (if |ks| == 0 then 0 else 2 * |ks| - 1) &&
      (forall j :: 0 <= j < |r| ==> (r[j] == Space <==> j % 2 == 1)) &&
      (forall j :: 0 <= j < |r| && j % 2 == 0 ==>
        ks[j / 2] < |LinkKinds| && Present(links, LinkKinds[ks[j / 2]].0) &&
        r[j] == Anchor(links[LinkKinds[ks[j / 2]].0], LinkKinds[ks[j / 2]].1)) &&
      (forall k :: 0 <= k < |LinkKinds| ==> (k in ks <==> Present(links, LinkKinds[k].0))) &&
      (forall i, j :: 0 <= i < j < |ks| ==> ks[i] < ks[j])
  {
    var ks, bs := PresentKinds(links, |LinkKinds|), Buttons(links, |LinkKinds|);
    PresentKindsOrdered(links, |LinkKinds|);
    ButtonsFollowKinds(links, |LinkKinds|);
    SpacedShape(bs);
  }

  /** When exactly one kind is present, exactly that kind gets a button. */
  lemma {:induction false} SingleKind(links: map<string, string>, kind: nat, n: nat)
    requires kind < |LinkKinds| && n <= |LinkKinds|
    requires Present(links, LinkKinds[kind].0)
    requires forall k :: 0 <= k < |LinkKinds| && k != kind ==> !Present(links, LinkKinds[k].0)
    ensures Buttons(links, n) ==
      if kind < n then [Anchor(links[LinkKinds[kind].0], LinkKinds[kind].1)] else []
  {
    if n > 0 {
      SingleKind(links, kind, n - 1);
    }
  }

  /** When no kind is present there are no buttons. */
  lemma {:induction false} NoKind(links: map<string, string>, n: nat)
    requires n <= |LinkKinds|
    ensures (forall k :: 0 <= k < |LinkKinds| ==> !Present(links, LinkKinds[k].0)) ==> Buttons(links, n) == []
  {
    if n > 0 {
      NoKind(links, n - 1);
    }
  }

  /** A `links` object holding only a DOI yields exactly one button, `[DOI]`. */
  lemma OnlyDoi(url: string)
    requires url != ""
    ensures LinksBlock(map["doi" := url]) == [Anchor(url, "[DOI]")]
  {
    var links := map["doi" := url];
    forall k | 0 <= k < |LinkKinds| && k != 1
      ensures !Present(links, LinkKinds[k].0)
    {
    }
    SingleKind(links, 1, |LinkKinds|);
  }

  /** Appending a node to a spaced list adds a space first unless the list
      was empty. */
  lemma SpacedSnoc(nodes: seq<LinkNode>, last: LinkNode)
    ensures Spaced(nodes + [last]) == Spaced(nodes) + (if |nodes| > 0 then [Space] else []) + [last]
  {
    if |nodes| > 0 {
      var ext := nodes + [last];
      assert ext[..|ext| - 1] == nodes;
    }
  }

  /** One of the six link checks: if kind `kind` is present, add a space
      when an anchor was added before, then its anchor, and raise the flag. */
  method AddLink(links: map<string, string>, kind: nat, nodes: seq<LinkNode>, firstAdded: bool)
    returns (nodes': seq<LinkNode>, firstAdded': bool)
    requires kind < |LinkKinds|
    requires nodes == Spaced(Buttons(links, kind))
    requires firstAdded == (|Buttons(links, kind)| > 0)
    ensures nodes' == Spaced(Buttons(links, kind + 1))
    ensures firstAdded' == (|Buttons(links, kind + 1)| > 0)
  {
    var key, caption := LinkKinds[kind].0, LinkKinds[kind].1;
    nodes', firstAdded' := nodes, firstAdded;
    assert Buttons(links, kind + 1) == Buttons(links, kind) +
      (if Present(links, key) then [Anchor(links[key], caption)] else []);
    if key in links && links[key] != "" {
      SpacedSnoc(Buttons(links, kind), Anchor(links[key], caption));
      if firstAdded' {
        nodes' := nodes' + [Space];
      }
      nodes' := nodes' + [Anchor(links[key], caption)];
      firstAdded' := true;
    } else {
      assert Buttons(links, kind + 1) == Buttons(links, kind);
    }
  }

  /** Builds the links block as the page script does, checking the kinds in
      table order. */
  method BuildLinks(links: map<string, string>) returns (nodes: seq<LinkNode>)
    ensures nodes == LinksBlock(links)
  {
    var firstAdded := false;
    nodes := [];
    nodes, firstAdded := AddLink(links, 0, nodes, firstAdded);  // pdf
    nodes, firstAdded := AddLink(links, 1, nodes, firstAdded);  // doi
    nodes, firstAdded := AddLink(links, 2, nodes, firstAdded);  // link
    nodes, firstAdded := AddLink(links, 3, nodes, firstAdded);  // code
    nodes, firstAdded := AddLink(links, 4, nodes, firstAdded);  // project
    nodes, firstAdded := AddLink(links, 5, nodes, firstAdded);  // video
  }

  // ---------------------------------------------------------------------
  // The whole fragment

  /** The award is shown when it is present and non-empty. */
  function AwardShown(award: Option<string>): Option<string> {
    if award.Some? && |award.value| > 0 then award else None
  }

  /** The fragment for one publication. */
  function Render(pub: Publication): Fragment {
    Fragment(
      pub.thumbnail,
      pub.title,
      AuthorsHtml(pub.authors),
      pub.venue,
      AwardShown(pub.award),
      if pub.links.Some? then Some(LinksBlock(pub.links.value)) else None)
  }

  /** The award element appears if and only if the award is present with
      length > 0, and then carries that award. */
  lemma RenderAward(pub: Publication)
    ensures Render(pub).award.Some? <==> pub.award.Some? && |pub.award.value| > 0
    ensures Render(pub).award.Some? ==> Render(pub).award == pub.award
  {
  }

  /** No `links` object, no links block; a `links` object, a links block
      (possibly with no anchors). */
  lemma RenderLinks(pub: Publication)
    ensures Render(pub).links.None? <==> pub.links.None?
    ensures pub.links.Some? && (forall k :: 0 <= k < |LinkKinds| ==> !Present(pub.links.value, LinkKinds[k].0))
      ==> Render(pub).links == Some([])
  {
    if pub.links.Some? {
      NoKind(pub.links.value, |LinkKinds|);
    }
  }

  /** Builds the fragment of one publication as the page script does. */
  method CreatePublicationElement(pub: Publication) returns (item: Fragment)
    ensures item == Render(pub)
  {
    var authorsHtml := FormatAuthors(pub.authors);
    var award: Option<string> := None;
    if pub.award.Some? && |pub.award.value| > 0 {
      award := pub.award;
    }
    var links: Option<seq<LinkNode>> := None;
    if pub.links.Some? {
      var nodes := BuildLinks(pub.links.value);
      links := Some(nodes);
    }
    item := Fragment(pub.thumbnail, pub.title, authorsHtml, pub.venue, award, links);
  }
}
