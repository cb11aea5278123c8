// The three workflow-step indicators of updateWorkflowSteps (js/app.js):
// 1 "Filter Data", 2 "Select Files", 3 "Download".

module Workflow {
  import opened Catalog

  /** FILTER_KEYS.some(key => state.filters[key].size > 0). */
  function HasFilters(f: FacetSets): (b: bool)
    ensures b <==> exists k :: f.Get(k) != {}
  {
    var b := f.region != {} || f.disk != {} || f.band != {} || f.molecule != {} || f.dataType != {};
    assert b ==> exists k :: f.Get(k) != {} by {
      if f.region != {} { assert f.Get(Region) != {}; }
      else if f.disk != {} { assert f.Get(Disk) != {}; }
      else if f.band != {} { assert f.Get(Band) != {}; }
      else if f.molecule != {} { assert f.Get(Molecule) != {}; }
      else if f.dataType != {} { assert f.Get(DataType) != {}; }
    }
    b
  }

  /** The completed and active classes of the three steps. */
  datatype Steps = Steps(filterCompleted: bool, filterActive: bool,
                         selectCompleted: bool, selectActive: bool,
                         downloadActive: bool)

  function WorkflowSteps(f: FacetSets, selected: seq<nat>): (s: Steps)
    ensures s.filterCompleted <==> exists k :: f.Get(k) != {}
    ensures s.filterActive <==> forall k :: f.Get(k) == {}
    ensures s.selectCompleted <==> selected != []
    ensures s.selectActive <==> (exists k :: f.Get(k) != {}) && selected == []
    ensures s.downloadActive <==> selected != []
  {
    var hasFilters := HasFilters(f);
    var hasSelection := |selected| > 0;
    Steps(hasFilters, !hasFilters, hasSelection, hasFilters && !hasSelection, hasSelection)
  }

  /** Some step is always highlighted as active, step 1 is never both
      completed and active, and step 2 is only active once step 1 is done. */
  lemma StepsConsistent(f: FacetSets, selected: seq<nat>)
    ensures var s := WorkflowSteps(f, selected);
      && (s.filterActive || s.selectActive || s.downloadActive)
      && s.filterCompleted != s.filterActive
      && (s.selectActive ==> s.filterCompleted && !s.selectCompleted)
      && s.selectCompleted == s.downloadActive
  {
  }

  /** After resetting every facet step 1 is active again, whatever the selection. */
  lemma NoFiltersActivatesStepOne(selected: seq<nat>)
    ensures WorkflowSteps(NoFilters, selected).filterActive
    ensures !WorkflowSteps(NoFilters, selected).selectActive
  {
  }

  /** updateGenerateButton: the button is disabled while nothing is selected. */
  function GenerateDisabled(selected: seq<nat>): bool {
    |selected| == 0
  }
}
