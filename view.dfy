/** The publication list view: the page-wide list of loaded publications,
    the "showing selected" flag, the publications container and the two
    toggle labels. Loading, toggling and rendering are methods of
    `PublicationsPage`; each is specified by a transition on `Page` values,
    and the facts about those transitions are lemmas here. */
module PublicationView {
  import opened PubData
  import opened Renderer

  /** What fetching and parsing publications.json produced: its
      `publications` array, or a failure (network error, non-success status
      or unparsable body). */
  datatype FetchOutcome = Ok(publications: seq<Publication>) | Err

  /** The content of the publications container: a list of publication
      fragments, or a plain message. */
  datatype Container = Items(children: seq<Fragment>) | Message(text: string)

  const ErrorText := "Error loading publications."

  /** Text of the toggle button: it offers the other view. */
  function ButtonLabel(showingSelected: bool): string {
    if showingSelected then "Show All" else "Show Selected"
  }

  /** Text of the list header: it names the view shown. */
  function HeaderLabel(showingSelected: bool): string {
    if showingSelected then "Selected Publications" else "All Publications"
  }

  // ---------------------------------------------------------------------
  // Filtering and rendering the list

  /** `pubs.filter(pub => pub.selected === 1)`. */
  function SelectedOnly(pubs: seq<Publication>): (r: seq<Publication>)
    ensures |r| <= |pubs|
    ensures forall i :: 0 <= i < |r| ==> r[i].selected == 1
  {
    if |pubs| == 0 then []
    else (if pubs[0].selected == 1 then [pubs[0]] else []) + SelectedOnly(pubs[1..])
  }

  /** Filtering keeps relative order: it distributes over concatenation. */
  lemma {:induction false} SelectedOnlyAppend(a: seq<Publication>, b: seq<Publication>)
    ensures SelectedOnly(a + b) == SelectedOnly(a) + SelectedOnly(b)
  {
    if |a| > 0 {
      assert (a + b)[0] == a[0];
      assert (a + b)[1..] == a[1..] + b;
      SelectedOnlyAppend(a[1..], b);
    } else {
      assert a + b == b;
    }
  }

  /** Filtering keeps every copy of a selected record and drops every
      record whose `selected` is not exactly 1. */
  lemma {:induction false} SelectedOnlyCount(pubs: seq<Publication>, p: Publication)
    ensures multiset(SelectedOnly(pubs))[p] == if p.selected == 1 then multiset(pubs)[p] else 0
  {
    if |pubs| > 0 {
      SelectedOnlyCount(pubs[1..], p);
      assert pubs == [pubs[0]] + pubs[1..];
    }
  }

  /** The records a view shows. */
  function Shown(all: seq<Publication>, selectedOnly: bool): seq<Publication> {
    if selectedOnly then SelectedOnly(all) else all
  }

  /** One fragment per record, in order. */
  function RenderAll(pubs: seq<Publication>): seq<Fragment> {
    seq(|pubs|, i requires 0 <= i < |pubs| => Render(pubs[i]))
  }

  /** The container after rendering a view: it was cleared, then received
      one fragment per shown record. */
  function View(all: seq<Publication>, selectedOnly: bool): Container {
    Items(RenderAll(Shown(all, selectedOnly)))
  }

  /** The full view holds one fragment per record in order; the
      selected-only view holds one fragment per record with `selected` equal
      to 1, in their original order, and nothing else. */
  lemma ViewContents(all: seq<Publication>, selectedOnly: bool)
    ensures var shown, c := Shown(all, selectedOnly), View(all, selectedOnly).children;
      |c| == |shown| && (forall i :: 0 <= i < |c| ==> c[i] == Render(shown[i])) &&
      (!selectedOnly ==> shown == all) &&
      (selectedOnly ==> forall p :: multiset(shown)[p] == if p.selected == 1 then multiset(all)[p] else 0)
  {
    if selectedOnly {
      forall p ensures multiset(SelectedOnly(all))[p] == if p.selected == 1 then multiset(all)[p] else 0 {
        SelectedOnlyCount(all, p);
      }
    }
  }

  // ---------------------------------------------------------------------
  // Page state and its transitions

  /** Everything the view controller reads or writes. */
  datatype Page = Page(
    all: seq<Publication>,
    showingSelected: bool,
    container: Container,
    buttonText: string,
    headerText: string)

  predicate LabelsFollowFlag(p: Page) {
    p.buttonText == ButtonLabel(p.showingSelected) && p.headerText == HeaderLabel(p.showingSelected)
  }

  /** The labels describe the flag and the container shows the view the
      flag names. */
  predicate Consistent(p: Page) {
    LabelsFollowFlag(p) && p.container == View(p.all, p.showingSelected)
  }

  /** The page before anything is loaded; the labels come from the page
      markup. */
  function InitialPage(buttonText: string, headerText: string): Page {
    Page([], true, Items([]), buttonText, headerText)
  }

  /** `renderPublications(selectedOnly)`. */
  function WithView(p: Page, selectedOnly: bool): Page {
    p.(container := View(p.all, selectedOnly))
  }

  /** `togglePublications()`. */
  function Toggled(p: Page): (r: Page)
    ensures r.showingSelected == !p.showingSelected && r.all == p.all
    ensures Consistent(r)
  {
    var flag := !p.showingSelected;
    WithView(p.(showingSelected := flag), flag).(buttonText := ButtonLabel(flag), headerText := HeaderLabel(flag))
  }

  /** `displayFallbackPublications()`: the container holds only the error
      text; nothing else changes. */
  function Failed(p: Page): Page {
    p.(container := Message(ErrorText))
  }

  /** `loadPublications()` once the fetch has settled with `outcome`. */
  function Loaded(p: Page, outcome: FetchOutcome): Page {
    match outcome
    case Ok(pubs) => WithView(p.(all := pubs), true)
    case Err => Failed(p)
  }

  /** After a toggle the labels read "Show All" / "Selected Publications"
      when the flag is set and "Show Selected" / "All Publications" when it
      is not. */
  lemma ToggleLabels(p: Page)
    ensures Toggled(p).showingSelected ==>
      Toggled(p).buttonText == "Show All" && Toggled(p).headerText == "Selected Publications"
    ensures !Toggled(p).showingSelected ==>
      Toggled(p).buttonText == "Show Selected" && Toggled(p).headerText == "All Publications"
  {
  }

  /** Toggling twice restores the flag, shows the original view again, and
      restores the labels whenever they described the flag; from a
      consistent page it restores the page exactly. */
  lemma ToggleTwice(p: Page)
    ensures Toggled(Toggled(p)).showingSelected == p.showingSelected
    ensures Toggled(Toggled(p)).all == p.all
    ensures Toggled(Toggled(p)).container == View(p.all, p.showingSelected)
    ensures LabelsFollowFlag(p) ==>
      Toggled(Toggled(p)).buttonText == p.buttonText && Toggled(Toggled(p)).headerText == p.headerText
    ensures Consistent(p) ==> Toggled(Toggled(p)) == p
  {
  }

  /** A failed load puts exactly the error text in the container and
      leaves the list, the flag and the labels alone. */
  lemma LoadFailure(p: Page)
    ensures Loaded(p, Err).container == Message(ErrorText)
    ensures Loaded(p, Err).all == p.all
    ensures Loaded(p, Err).showingSelected == p.showingSelected
    ensures Loaded(p, Err).buttonText == p.buttonText && Loaded(p, Err).headerText == p.headerText
  {
  }

  /** If the first load fails, the list stays empty. */
  lemma FirstLoadFails(buttonText: string, headerText: string)
    ensures Loaded(InitialPage(buttonText, headerText), Err).all == []
    ensures Loaded(InitialPage(buttonText, headerText), Err).container == Message(ErrorText)
  {
  }

  /** A successful load stores the fetched list and shows its selected-only
      view, whatever the flag says; the flag and labels are not touched. */
  lemma LoadSuccess(p: Page, pubs: seq<Publication>)
    ensures Loaded(p, Ok(pubs)).all == pubs
    ensures Loaded(p, Ok(pubs)).container == View(pubs, true)
    ensures Loaded(p, Ok(pubs)).showingSelected == p.showingSelected
    ensures Loaded(p, Ok(pubs)).buttonText == p.buttonText && Loaded(p, Ok(pubs)).headerText == p.headerText
    ensures LabelsFollowFlag(p) && p.showingSelected ==> Consistent(Loaded(p, Ok(pubs)))
  {
  }

  /** The toggle button is live while the fetch is in flight. A click
      before the fetch settles clears the flag and relabels the page for
      the full list; the load then shows only the selected records under
      the header "All Publications". */
  lemma ToggleBeforeLoad()
    ensures var unselected := Publication("T", ["A"], "V", None, "t.png", 0, None);
      var p := Loaded(Toggled(InitialPage("Show All", "Selected Publications")), Ok([unselected]));
      p.headerText == "All Publications" && p.buttonText == "Show Selected" &&
      p.container == Items([]) && View(p.all, p.showingSelected) == Items([Render(unselected)]) &&
      !Consistent(p)
  {
    var unselected := Publication("T", ["A"], "V", None, "t.png", 0, None);
    assert SelectedOnly([unselected]) == [];
    assert RenderAll([unselected]) == [Render(unselected)];
  }

  /** A load that renders the view the flag names. */
  function LoadedKeepingView(p: Page, outcome: FetchOutcome): Page {
    match outcome
    case Ok(pubs) => WithView(p.(all := pubs), p.showingSelected)
    case Err => Failed(p)
  }

  /** With that load, a successful fetch always leaves the page consistent
      as long as the labels described the flag, and it differs from the
      page script's load only when the full list was chosen. */
  lemma LoadedKeepingViewConsistent(p: Page, outcome: FetchOutcome)
    ensures LabelsFollowFlag(p) && outcome.Ok? ==> Consistent(LoadedKeepingView(p, outcome))
    ensures p.showingSelected ==> LoadedKeepingView(p, outcome) == Loaded(p, outcome)
    ensures LoadedKeepingView(p, outcome).all == Loaded(p, outcome).all
  {
  }

  // ---------------------------------------------------------------------
  // The view controller

  /** The page script's globals (`allPublications`, `showingSelected`)
      together with the parts of the document it writes: the publications
      container and the texts of the toggle button and header. */
  class PublicationsPage {
    var allPublications: seq<Publication>
    var showingSelected: bool
    var container: Container
    var toggleButtonText: string
    var toggleHeaderText: string

    function State(): Page
      reads this
    {
      Page(allPublications, showingSelected, container, toggleButtonText, toggleHeaderText)
    }

    /** The globals' initial values; the labels are whatever the markup holds. */
    constructor (buttonText: string, headerText: string)
      ensures State() == InitialPage(buttonText, headerText)
    {
      allPublications := [];
      showingSelected := true;
      container := Items([]);
      toggleButtonText := buttonText;
      toggleHeaderText := headerText;
    }

    /** Settles the fetch of publications.json with `outcome`. */
    method LoadPublications(outcome: FetchOutcome)
      modifies this
      ensures State() == Loaded(old(State()), outcome)
    {
      match outcome
      case Ok(pubs) =>
        allPublications := pubs;
        RenderPublications(true);
      case Err =>
        DisplayFallbackPublications();
    }

    method DisplayFallbackPublications()
      modifies this
      ensures State() == Failed(old(State()))
    {
      container := Message(ErrorText);
    }

    method TogglePublications()
      modifies this
      ensures State() == Toggled(old(State()))
      ensures Consistent(State())
    {
      showingSelected := !showingSelected;
      RenderPublications(showingSelected);
      toggleButtonText := if showingSelected then "Show All" else "Show Selected";
      toggleHeaderText := if showingSelected then "Selected Publications" else "All Publications";
    }

    /** Clears the container, then appends one fragment per shown record. */
    method RenderPublications(selectedOnly: bool)
      modifies this
      ensures State() == WithView(old(State()), selectedOnly)
    {
      container := Items([]);
      var pubsToShow := if selectedOnly then SelectedOnly(allPublications) else allPublications;
      var i := 0;
      while i < |pubsToShow|
        invariant 0 <= i <= |pubsToShow|
        invariant container == Items(RenderAll(pubsToShow[..i]))
        invariant allPublications == old(allPublications) && showingSelected == old(showingSelected)
        invariant toggleButtonText == old(toggleButtonText) && toggleHeaderText == old(toggleHeaderText)
      {
        var pubElement := CreatePublicationElement(pubsToShow[i]);
        assert RenderAll(pubsToShow[..i + 1]) == RenderAll(pubsToShow[..i]) + [pubElement];
        container := Items(container.children + [pubElement]);
        i := i + 1;
      }
      assert pubsToShow[..i] == pubsToShow;
    }
  }
}
