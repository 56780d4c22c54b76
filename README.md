# Publication list view, modelled in Dafny

This project models the publication list of a personal academic website,
as the page script `scripts.js` builds it. It covers two parts.

- **The view controller.** It holds the page-wide list `allPublications`
  and the flag `showingSelected`. Loading stores the fetched list and shows
  the selected-only view, or puts a fixed error text in the container.
  Toggling flips the flag, re-renders and relabels the toggle button and
  header. Rendering clears the container and appends one fragment per shown
  record.
- **The publication renderer.** It turns one publication record into a
  fragment: thumbnail reference, title, authors markup (authors joined by
  ", ", any author containing "D Garg" wrapped in a highlight span), venue,
  the award when present and non-empty, and an optional links block. The
  links block has buttons in the order pdf, doi, link, code, project, video,
  with single spaces between them.

The DOM is replaced by values. `Fragment` stands for a publication item,
`Container` for the publications container, and `LinkNode` for a child of
the links block. The fetch of publications.json is an input, `FetchOutcome`:
`Ok(list)` or `Err`.

Files:

- `pubdata.dfy`: the records and fragments.
- `text.dfy`: substring search (`String.prototype.includes`) and joining
  with a separator.
- `renderer.dfy`: the renderer.
- `view.dfy`: the view controller. The class `PublicationsPage` holds the
  script's globals and the parts of the document it writes. Each of its
  methods is specified by a transition on `Page` values: `Toggled`,
  `Loaded`, `Failed` and `WithView`.

Facts about the code and the data that the model follows:

- A record is selected only when its `selected` field is exactly 1
  (`pub.selected === 1`); a JSON `true` does not select.
- An empty `authors` array gives empty markup, because the `forEach` at
  scripts.js:122 adds nothing; the model allows it.
- Toggling twice restores the labels only when they already matched the
  flag. The initial label texts come from the page markup, not from the
  script.

## Model

| member | source | states |
|---|---|---|
| Text.ContainsIff | scripts.js:124 | the `includes` scan finds the name token exactly when it occurs at some position of the author string |
| Text.JoinLayout | scripts.js:121-132 | part i sits at its offset; exactly one separator follows each part but the last; the first part starts at 0 and the last part ends the string, so n parts carry n - 1 separators |
| Renderer.HighlightIff | scripts.js:124-128 | an author is wrapped in the highlight span if and only if it contains "D Garg"; otherwise it appears verbatim |
| Renderer.AuthorsLayout | scripts.js:121-134 | in the authors markup every author appears in order, highlighted or verbatim, with exactly ", " between consecutive authors and nothing before the first or after the last |
| Renderer.HighlightExample | scripts.js:121-134 | ["A B", "D Garg", "C D"] gives "A B", ", ", the highlighted "D Garg", ", ", "C D" |
| Renderer.FormatAuthors | scripts.js:121-132 | the author loop with its conditional ", " builds exactly the joined, highlighted authors markup |
| Renderer.PresentKindsOrdered | scripts.js:170-201 | the kinds that get a button are in strictly increasing table order, and each is present exactly when its URL is a non-empty string |
| Renderer.SpacedShape | scripts.js:171-201 | buttons sit at even positions and single spaces at odd positions: one space between consecutive buttons, none before the first or after the last |
| Renderer.LinksBlockLayout | scripts.js:157-204 | the links block alternates anchors and spaces; anchor j carries the URL and label of the j-th present kind in the order pdf, doi, link, code, project, video; a kind has an anchor if and only if it is present |
| Renderer.SingleKind | scripts.js:170-201 | when exactly one kind is present, exactly that kind gets a button |
| Renderer.OnlyDoi | scripts.js:177-181 | a links object with only a DOI gives exactly one button, [DOI], with that URL |
| Renderer.AddLink | scripts.js:172-176 | one link check adds a space only when an anchor came before, then the anchor, and sets `firstAdded` |
| Renderer.BuildLinks | scripts.js:157-204 | the six checks threaded through `firstAdded` build exactly the spaced, ordered links block |
| Renderer.RenderAward | scripts.js:146-152 | the award element appears if and only if the award is present with length > 0, and then carries it |
| Renderer.RenderLinks | scripts.js:156-204 | there is a links block if and only if the record has a links object; a links object with no present kind gives an empty block |
| Renderer.CreatePublicationElement | scripts.js:92-211 | builds the fragment of one record: thumbnail, title, authors markup, venue, award and links as specified above |
| PublicationView.SelectedOnly | scripts.js:81-83 | the filtered list is no longer than the input, and each of its records has `selected` equal to 1 |
| PublicationView.SelectedOnlyAppend | scripts.js:81-83 | filtering distributes over concatenation, so records keep their relative order |
| PublicationView.SelectedOnlyCount | scripts.js:81-83 | each record with `selected` equal to 1 is kept as many times as it occurs; every other record is dropped |
| PublicationView.ViewContents | scripts.js:77-89 | the container holds one fragment per shown record, in order, and nothing else; the full view shows every record and the selected-only view exactly the selected ones |
| PublicationView.Toggled | scripts.js:65-74 | toggling flips the flag, keeps the list, and leaves labels and container matching the new flag |
| PublicationView.ToggleLabels | scripts.js:71-73 | after a toggle the labels read "Show All"/"Selected Publications" when the flag is set, "Show Selected"/"All Publications" when it is not |
| PublicationView.ToggleTwice | scripts.js:65-74 | two toggles restore the flag and the view, restore the labels when they matched the flag, and restore a consistent page exactly |
| PublicationView.LoadFailure | scripts.js:51-62 | a failed load leaves exactly "Error loading publications." in the container; the list, flag and labels are unchanged |
| PublicationView.FirstLoadFails | scripts.js:51-61 | if the first load fails, the list stays empty and the container holds the error text |
| PublicationView.LoadSuccess | scripts.js:46-50 | a successful load stores `data.publications` and shows its selected-only view; flag and labels are untouched |
| PublicationView.ToggleBeforeLoad | scripts.js:29-50 | a toggle click before the fetch settles leaves the page saying "All Publications" while showing only the selected records |
| PublicationView.LoadedKeepingViewConsistent | scripts.js:46-50 | the load that renders the view named by the flag, after a successful fetch from a page whose labels matched the flag, leaves a consistent page; on either outcome it stores the same list as the script's load, and it agrees with the script's load entirely whenever the flag is set |
| PublicationView.PublicationsPage.constructor | scripts.js:1-3 | the list starts empty, the flag starts true, and the container starts empty |
| PublicationView.PublicationsPage.LoadPublications | scripts.js:38-56 | the new page state is `Loaded` of the old one: on success the list is replaced and the selected-only view rendered; on failure the fallback runs |
| PublicationView.PublicationsPage.DisplayFallbackPublications | scripts.js:59-62 | the new page state is `Failed` of the old one: only the container changes, and it holds exactly the error text |
| PublicationView.PublicationsPage.TogglePublications | scripts.js:65-74 | the new page state is `Toggled` of the old one, and the page is consistent afterwards |
| PublicationView.PublicationsPage.RenderPublications | scripts.js:77-89 | the container is cleared and then holds one rendered fragment per shown record, in order; nothing else changes |

## Findings

| source | as written | input that shows it | evidently intended | confidence | as-written member | corrected member |
|---|---|---|---|---|---|---|
| scripts.js:46-50 | on success the load always renders the selected-only view and leaves `showingSelected` and the labels alone, but the toggle handler is wired (scripts.js:30-33) before the fetch settles | the toggle is clicked once while publications.json is still loading; the fetch then returns one record with `selected` 0: the header reads "All Publications" and the button "Show Selected", yet the list is empty | render the view the flag names | not executed; medium (needs a click inside the fetch window) | PublicationView.ToggleBeforeLoad | PublicationView.LoadedKeepingViewConsistent |

The class `PublicationsPage` keeps the script's own load behaviour, `Loaded`.
The corrected transition is `LoadedKeepingView`. `LoadedKeepingViewConsistent`
proves it against the page invariant `Consistent`.

## Left out

- The modal image viewer (scripts.js:214-238) and the thumbnail's click
  handler (scripts.js:99). They run on `setTimeout` delays, so overlapping
  open and close timers would need a model of time.
- Section animation delays and scroll offsets (scripts.js:10-27). They use
  floating-point delays, layout measurement and the resize listener.
- src/js/scripts.js: scrollspy setup, navbar collapse, scroll to top, the
  dropdown class toggle, and clipboard copy. These are browser and library
  calls with no logic of their own.
- The travel map widget. None of its code is part of this model.
- The network fetch, the status check, JSON parsing and the console logging
  (scripts.js:39-47, 52). The whole outcome is the input `FetchOutcome`.
- Malformed data. The model assumes every record has the fields of
  `Publication`. In the script, a missing `publications` array or a record
  without `authors` throws inside the success handler, and the catch then
  shows the error text. By then scripts.js:48 has already replaced
  `allPublications`, so the error text sits next to a replaced list, and a
  later toggle throws the same way at scripts.js:67 after the flag has
  flipped. `LoadFailure` covers only the failed fetch, which leaves the
  list alone; that path is not modelled.
- Truthiness of non-string values. A link URL or award is modelled as a
  string: a URL is present when it is non-empty, and an award is shown when
  it is present and non-empty. JSON numbers, booleans or null in those
  fields are not modelled. `selected` is an integer, and only 1 selects.
- DOM attributes with no behaviour: class names, `alt` text, `target` and
  `rel` on anchors. The fragment records only the thumbnail reference.
- HTML escaping. The script inserts author names as raw markup, and the
  model keeps them verbatim. How a browser would parse that markup is not
  modelled.
- The page's initial markup. The constructor takes the toggle labels as
  given, and the container starts empty. The elements
  `publications-container`, `toggle-publications` and `toggle-header` are
  assumed present; if `toggle-header` were missing, scripts.js:72-73 would
  throw after the flag, the container and the button text had already
  been updated, and that partial update is not modelled.
