/** The workspace component's state: the validated collections, the set of
    selected point ids and the search term, with the suggestion effect and
    the two selection handlers that update them. */
module ScrapingWorkspace {
  import opened Wrappers
  import opened Dom
  import opened Collections
  import opened Validation
  import opened Selection

  /** How the suggestion effect ends: no API key (the toast "Google AI Key
      Missing", after which the page is reset), the toast "AI Suggestion
      Failed" (the oracle failed or a selector threw), or collections set. */
  datatype SuggestOutcome = KeyMissing | SuggestionFailed | Suggested

  class Workspace {
    var collections: seq<DataCollection>
    var selectedDataPointIds: set<string>
    var searchTerm: string

    constructor ()
      ensures collections == [] && selectedDataPointIds == {} && searchTerm == ""
    {
      collections := [];
      selectedDataPointIds := {};
      searchTerm := "";
    }

    /** `getSuggestions`: clears the collections and the selection, then,
        with an API key and a successful oracle call, validates the
        proposals against `doc` (the parse of the page content) and selects
        the first surviving collection's points. */
    method Suggest(doc: Document, apiKey: string, oracle: Result<seq<ProposedCollection>, string>)
      returns (outcome: SuggestOutcome)
      modifies this`collections, this`selectedDataPointIds
      ensures outcome == KeyMissing <==> apiKey == ""
      ensures outcome == Suggested <==> apiKey != "" && oracle.Success? && Validate(doc, oracle.value).Some?
      ensures outcome == Suggested ==>
        collections == ValidateCollections(doc, oracle.value) &&
        selectedDataPointIds == InitialSelection(collections)
      ensures outcome != Suggested ==> collections == [] && selectedDataPointIds == {}
    {
      collections := [];
      selectedDataPointIds := {};
      if apiKey == "" {
        return KeyMissing;
      }
      if oracle.Failure? {
        return SuggestionFailed;
      }
      var validated := Validate(doc, oracle.value);
      if validated.None? {
        return SuggestionFailed;
      }
      collections := validated.value;
      if |collections| > 0 && |collections[0].dataPoints| > 0 {
        selectedDataPointIds := set j | 0 <= j < |collections[0].dataPoints| :: collections[0].dataPoints[j].id;
      }
      outcome := Suggested;
    }

    /** The search box's `onChange`. */
    method SetSearchTerm(term: string)
      modifies this`searchTerm
      ensures searchTerm == term
    {
      searchTerm := term;
    }

    /** `handleToggleDataPoint`. */
    method ToggleDataPoint(dataPointId: string)
      modifies this`selectedDataPointIds
      ensures selectedDataPointIds == Toggled(old(selectedDataPointIds), dataPointId)
    {
      var newSet := selectedDataPointIds;
      if dataPointId in newSet {
        newSet := newSet - {dataPointId};
      } else {
        newSet := newSet + {dataPointId};
      }
      selectedDataPointIds := newSet;
    }

    /** `handleToggleSelectAll`: deletes the visible ids one by one when all
        of them are selected, otherwise adds them all. */
    method ToggleSelectAll()
      modifies this`selectedDataPointIds
      ensures selectedDataPointIds == BulkToggled(old(selectedDataPointIds), VisibleIds(collections, searchTerm))
    {
      var visible := VisibleIds(collections, searchTerm);
      if AllVisibleSelected(visible, selectedDataPointIds) {
        var newSet := selectedDataPointIds;
        var i := 0;
        while i < |visible|
          invariant 0 <= i <= |visible|
          invariant newSet == selectedDataPointIds - Elements(visible[..i])
        {
          assert visible[..i + 1] == visible[..i] + [visible[i]];
          newSet := newSet - {visible[i]};
          i := i + 1;
        }
        assert visible[..|visible|] == visible;
        selectedDataPointIds := newSet;
      } else {
        selectedDataPointIds := selectedDataPointIds + Elements(visible);
      }
    }
  }
}
