/** The training-materials browser: its material record, its filter state,
    the conjunctive filter that picks the visible materials, and the two
    state handlers (toggle a facet value, clear everything). */
module Browser {
  import opened Wrappers
  import opened Text
  import opened Seqs

  /** One catalogue card. */
  datatype Material = Material(
    id: int,
    title: string,
    description: string,
    format: string,
    duration: string,
    audience: seq<string>,
    topics: seq<string>,
    researchStages: seq<string>,
    practices: seq<string>,
    difficulty: string,
    featured: bool)

  /** The eight pieces of UI state the filter reads. Every facet selection
      is a list, as the UI keeps it: appending does not deduplicate. */
  datatype FilterState = FilterState(
    searchQuery: string,
    formats: seq<string>,
    audiences: seq<string>,
    topics: seq<string>,
    stages: seq<string>,
    practices: seq<string>,
    difficulties: seq<string>,
    featuredOnly: bool)

  /** The state the component starts in and `clearAllFilters` restores. */
  const Initial := FilterState("", [], [], [], [], [], [], false)

  /** The six checkbox facets. */
  datatype Facet = Format | Audience | Topic | Stage | Practice | Difficulty

  /** The `setters` table: which facet a filter-type name addresses. */
  function FacetNamed(filterType: string): Option<Facet> {
    match filterType
    case "format" => Some(Format)
    case "audience" => Some(Audience)
    case "topic" => Some(Topic)
    case "stage" => Some(Stage)
    case "practice" => Some(Practice)
    case "difficulty" => Some(Difficulty)
    case _ => None
  }

  function Selected(st: FilterState, f: Facet): seq<string> {
    match f
    case Format => st.formats
    case Audience => st.audiences
    case Topic => st.topics
    case Stage => st.stages
    case Practice => st.practices
    case Difficulty => st.difficulties
  }

  /** Replaces one facet's selection; everything else is kept. */
  function WithSelected(st: FilterState, f: Facet, values: seq<string>): (r: FilterState)
    ensures Selected(r, f) == values
    ensures forall g :: g != f ==> Selected(r, g) == Selected(st, g)
    ensures r.searchQuery == st.searchQuery && r.featuredOnly == st.featuredOnly
  {
    match f
    case Format => st.(formats := values)
    case Audience => st.(audiences := values)
    case Topic => st.(topics := values)
    case Stage => st.(stages := values)
    case Practice => st.(practices := values)
    case Difficulty => st.(difficulties := values)
  }

  /* ---------------- The per-material predicate ---------------- */

  /** JavaScript `some`: at least one selected value occurs in `values`. */
  function AnyIn(selected: seq<string>, values: seq<string>): (b: bool)
    ensures b <==> exists v :: v in selected && v in values
  {
    if |selected| == 0 then false
    else selected[0] in values || AnyIn(selected[1..], values)
  }

  /** The search box: an empty query passes; otherwise the lower-cased
      query must occur in the lower-cased title or description. */
  predicate SearchMatches(query: string, m: Material) {
    || |query| == 0
    || Contains(Lower(m.title), Lower(query))
    || Contains(Lower(m.description), Lower(query))
  }

  /** A single-valued facet: an empty selection passes; otherwise the
      material's value must be one of the selected ones. */
  predicate ScalarMatches(selected: seq<string>, value: string) {
    |selected| == 0 || value in selected
  }

  /** A list-valued facet: an empty selection passes; otherwise the lists
      must share at least one value (overlap, not inclusion). */
  predicate OverlapMatches(selected: seq<string>, values: seq<string>) {
    |selected| == 0 || AnyIn(selected, values)
  }

  /** Whether the material's field that facet `f` constrains passes. */
  predicate FacetMatches(st: FilterState, f: Facet, m: Material) {
    match f
    case Format => ScalarMatches(st.formats, m.format)
    case Audience => OverlapMatches(st.audiences, m.audience)
    case Topic => OverlapMatches(st.topics, m.topics)
    case Stage => OverlapMatches(st.stages, m.researchStages)
    case Practice => OverlapMatches(st.practices, m.practices)
    case Difficulty => ScalarMatches(st.difficulties, m.difficulty)
  }

  /** All the checks of the filter callback, in conjunction. */
  predicate Passes(st: FilterState, m: Material) {
    && SearchMatches(st.searchQuery, m)
    && FacetMatches(st, Format, m)
    && FacetMatches(st, Audience, m)
    && FacetMatches(st, Topic, m)
    && FacetMatches(st, Stage, m)
    && FacetMatches(st, Practice, m)
    && FacetMatches(st, Difficulty, m)
    && (!st.featuredOnly || m.featured)
  }

  /** `filteredMaterials`: the materials passing every check, in catalogue
      order, none added, duplicated or reordered. */
  function FilterMaterials(materials: seq<Material>, st: FilterState): (r: seq<Material>)
    ensures IsSubsequence(r, materials)
    ensures forall m :: m in r <==> m in materials && Passes(st, m)
    ensures forall m :: multiset(r)[m] == if Passes(st, m) then multiset(materials)[m] else 0
  {
    Keep(materials, m => Passes(st, m))
  }

  /* ---------------- The state handlers ---------------- */

  /** `handleFilterChange`: toggles `value` in the facet named by
      `filterType`; an unknown name changes nothing, and no other part of
      the state ever changes. */
  function HandleFilterChange(st: FilterState, filterType: string, value: string, checked: bool): (r: FilterState)
    ensures FacetNamed(filterType).None? ==> r == st
    ensures FacetNamed(filterType).Some? ==>
      var f := FacetNamed(filterType).value;
      && Selected(r, f) == Toggle(Selected(st, f), value, checked)
      && (forall g :: g != f ==> Selected(r, g) == Selected(st, g))
    ensures r.searchQuery == st.searchQuery && r.featuredOnly == st.featuredOnly
  {
    match FacetNamed(filterType)
    case None => st
    case Some(f) => WithSelected(st, f, Toggle(Selected(st, f), value, checked))
  }

  /** `clearAllFilters`: whatever the state was, the query is emptied,
      every facet selection is emptied and the featured switch is turned
      off. */
  function ClearAllFilters(): (r: FilterState)
    ensures |r.searchQuery| == 0 && !r.featuredOnly
    ensures forall f :: |Selected(r, f)| == 0
  {
    Initial
  }

  /* ---------------- Properties ---------------- */

  /** A material is shown exactly when it is in the catalogue and passes
      every check, stated directly on the material's fields. */
  lemma ShownIff(materials: seq<Material>, st: FilterState, m: Material)
    ensures m in FilterMaterials(materials, st) <==>
      && m in materials
      && (|st.searchQuery| == 0
          || Contains(Lower(m.title), Lower(st.searchQuery))
          || Contains(Lower(m.description), Lower(st.searchQuery)))
      && (|st.formats| == 0 || m.format in st.formats)
      && (|st.audiences| == 0 || exists v :: v in st.audiences && v in m.audience)
      && (|st.topics| == 0 || exists v :: v in st.topics && v in m.topics)
      && (|st.stages| == 0 || exists v :: v in st.stages && v in m.researchStages)
      && (|st.practices| == 0 || exists v :: v in st.practices && v in m.practices)
      && (|st.difficulties| == 0 || m.difficulty in st.difficulties)
      && (st.featuredOnly ==> m.featured)
  {
    PassesIff(st, m);
    assert m in FilterMaterials(materials, st) <==> m in materials && Passes(st, m);
  }

  /** The filter callback's verdict spelled out on the material's fields. */
  lemma PassesIff(st: FilterState, m: Material)
    ensures Passes(st, m) <==>
      && (|st.searchQuery| == 0
          || Contains(Lower(m.title), Lower(st.searchQuery))
          || Contains(Lower(m.description), Lower(st.searchQuery)))
      && (|st.formats| == 0 || m.format in st.formats)
      && (|st.audiences| == 0 || exists v :: v in st.audiences && v in m.audience)
      && (|st.topics| == 0 || exists v :: v in st.topics && v in m.topics)
      && (|st.stages| == 0 || exists v :: v in st.stages && v in m.researchStages)
      && (|st.practices| == 0 || exists v :: v in st.practices && v in m.practices)
      && (|st.difficulties| == 0 || m.difficulty in st.difficulties)
      && (st.featuredOnly ==> m.featured)
  {
  }

  /** With nothing selected every material passes: the filter is the
      identity on the initial state. */
  lemma InitialShowsAll(materials: seq<Material>)
    ensures FilterMaterials(materials, Initial) == materials
  {
    KeepAll(materials, m => Passes(Initial, m));
  }

  /** After `clearAllFilters` the whole catalogue is shown again, whatever
      the state was before. */
  lemma ClearShowsAll(materials: seq<Material>)
    ensures FilterMaterials(materials, ClearAllFilters()) == materials
  {
    InitialShowsAll(materials);
  }

  /** Filtering the visible list again with the same state changes nothing. */
  lemma FilterIdempotent(materials: seq<Material>, st: FilterState)
    ensures FilterMaterials(FilterMaterials(materials, st), st) == FilterMaterials(materials, st)
  {
    KeepIdempotent(materials, m => Passes(st, m));
  }

  /** The search looks at the title and the description only: two materials
      that agree on those two fields agree on the search check. */
  lemma SearchReadsTitleAndDescriptionOnly(query: string, m: Material, n: Material)
    requires m.title == n.title && m.description == n.description
    ensures SearchMatches(query, m) <==> SearchMatches(query, n)
  {
  }

  /** The search ignores the case of the query. */
  lemma SearchIgnoresQueryCase(query: string, m: Material)
    ensures SearchMatches(query, m) <==> SearchMatches(Lower(query), m)
  {
    LowerIdempotent(query);
  }

  /** If the state `strong` rejects everything `weak` rejects, `strong`
      shows a subsequence of what `weak` shows. */
  lemma NarrowerStateShowsSubsequence(materials: seq<Material>, strong: FilterState, weak: FilterState)
    requires forall m :: Passes(strong, m) ==> Passes(weak, m)
    ensures IsSubsequence(FilterMaterials(materials, strong), FilterMaterials(materials, weak))
  {
    KeepMonotone(materials, m => Passes(strong, m), m => Passes(weak, m));
  }

  /** Turning on "featured only" can only hide materials, and hides exactly
      the non-featured ones. */
  lemma FeaturedOnlyNarrows(materials: seq<Material>, st: FilterState)
    ensures IsSubsequence(FilterMaterials(materials, st.(featuredOnly := true)), FilterMaterials(materials, st))
    ensures forall m :: m in FilterMaterials(materials, st.(featuredOnly := true)) <==>
      m in FilterMaterials(materials, st) && m.featured
  {
    var st' := st.(featuredOnly := true);
    assert forall m :: Passes(st', m) <==> Passes(st, m) && m.featured;
    NarrowerStateShowsSubsequence(materials, st', st);
  }

  /** Checking the first value of an empty facet can only hide materials. */
  lemma FirstSelectionNarrows(materials: seq<Material>, st: FilterState, filterType: string, value: string)
    requires FacetNamed(filterType).Some?
    requires |Selected(st, FacetNamed(filterType).value)| == 0
    ensures IsSubsequence(
      FilterMaterials(materials, HandleFilterChange(st, filterType, value, true)),
      FilterMaterials(materials, st))
  {
    var st' := HandleFilterChange(st, filterType, value, true);
    var f := FacetNamed(filterType).value;
    forall m | Passes(st', m)
      ensures Passes(st, m)
    {
      assert FacetMatches(st, f, m);
      assert forall g :: g != f ==> (FacetMatches(st', g, m) <==> FacetMatches(st, g, m));
    }
    NarrowerStateShowsSubsequence(materials, st', st);
  }

  /** Checking one more value of a facet that already has a selection can
      only show more materials: facets are disjunctive within, conjunctive
      across. */
  lemma FurtherSelectionWidens(materials: seq<Material>, st: FilterState, filterType: string, value: string)
    requires FacetNamed(filterType).Some?
    requires |Selected(st, FacetNamed(filterType).value)| > 0
    ensures IsSubsequence(
      FilterMaterials(materials, st),
      FilterMaterials(materials, HandleFilterChange(st, filterType, value, true)))
  {
    var st' := HandleFilterChange(st, filterType, value, true);
    var f := FacetNamed(filterType).value;
    var sel := Selected(st, f);
    assert Selected(st', f) == sel + [value];
    assert forall v :: v in sel ==> v in Selected(st', f);
    forall m | Passes(st, m)
      ensures Passes(st', m)
    {
      WidenedFacetPasses(st, st', f, m);
    }
    NarrowerStateShowsSubsequence(materials, st, st');
  }

  /** A material passing a state still passes once a facet that already had
      a selection selects more, everything else unchanged. */
  lemma WidenedFacetPasses(st: FilterState, st': FilterState, f: Facet, m: Material)
    requires |Selected(st, f)| > 0
    requires forall v :: v in Selected(st, f) ==> v in Selected(st', f)
    requires forall g :: g != f ==> Selected(st', g) == Selected(st, g)
    requires st'.searchQuery == st.searchQuery && st'.featuredOnly == st.featuredOnly
    requires Passes(st, m)
    ensures Passes(st', m)
  {
    forall g | g != f
      ensures FacetMatches(st', g, m) == FacetMatches(st, g, m)
    {
      assert Selected(st', g) == Selected(st, g);
      match g
      case Format => {}
      case Audience => {}
      case Topic => {}
      case Stage => {}
      case Practice => {}
      case Difficulty => {}
    }
    assert FacetMatches(st, f, m);
    match f
    case Format => {}
    case Audience => OverlapWidens(st.audiences, st'.audiences, m.audience);
    case Topic => OverlapWidens(st.topics, st'.topics, m.topics);
    case Stage => OverlapWidens(st.stages, st'.stages, m.researchStages);
    case Practice => OverlapWidens(st.practices, st'.practices, m.practices);
    case Difficulty => {}
  }

  /** A list-valued facet that passes keeps passing when its non-empty
      selection grows. */
  lemma OverlapWidens(selected: seq<string>, wider: seq<string>, values: seq<string>)
    requires |selected| > 0
    requires forall v :: v in selected ==> v in wider
    requires OverlapMatches(selected, values)
    ensures OverlapMatches(wider, values)
  {
    var v :| v in selected && v in values;
    assert v in wider;
  }

  /** Typing more of a query (the new query contains the old one, ignoring
      case) can only hide materials. */
  lemma RefinedQueryNarrows(materials: seq<Material>, st: FilterState, query: string)
    requires |st.searchQuery| > 0
    requires Contains(Lower(query), Lower(st.searchQuery))
    ensures IsSubsequence(
      FilterMaterials(materials, st.(searchQuery := query)),
      FilterMaterials(materials, st))
  {
    var st' := st.(searchQuery := query);
    forall m | Passes(st', m)
      ensures Passes(st, m)
    {
      if Contains(Lower(m.title), Lower(query)) {
        ContainsTransitive(Lower(m.title), Lower(query), Lower(st.searchQuery));
      } else if Contains(Lower(m.description), Lower(query)) {
        ContainsTransitive(Lower(m.description), Lower(query), Lower(st.searchQuery));
      } else {
        assert false;
      }
      assert forall g :: FacetMatches(st', g, m) <==> FacetMatches(st, g, m);
    }
    NarrowerStateShowsSubsequence(materials, st', st);
  }

  /** Checking a value that was not selected and then unchecking it
      restores the facet's selection. */
  lemma CheckUncheckRoundTrip(st: FilterState, filterType: string, value: string)
    requires FacetNamed(filterType).Some?
    requires value !in Selected(st, FacetNamed(filterType).value)
    ensures HandleFilterChange(HandleFilterChange(st, filterType, value, true), filterType, value, false) == st
  {
    var f := FacetNamed(filterType).value;
    ToggleRoundTrip(Selected(st, f), value);
    var r := HandleFilterChange(HandleFilterChange(st, filterType, value, true), filterType, value, false);
    assert forall g :: Selected(r, g) == Selected(st, g);
    assert r.formats == st.formats by { assert Selected(r, Format) == Selected(st, Format); }
    assert r.audiences == st.audiences by { assert Selected(r, Audience) == Selected(st, Audience); }
    assert r.topics == st.topics by { assert Selected(r, Topic) == Selected(st, Topic); }
    assert r.stages == st.stages by { assert Selected(r, Stage) == Selected(st, Stage); }
    assert r.practices == st.practices by { assert Selected(r, Practice) == Selected(st, Practice); }
    assert r.difficulties == st.difficulties by { assert Selected(r, Difficulty) == Selected(st, Difficulty); }
  }
}
