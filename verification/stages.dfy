/** The static catalog of production stages (`TRACKER_STAGES`) and the label
    lookup used by the tracker pages and the audit detail text. */
module Stages {
  import opened Base

  datatype StageGroup = PrePress | Press | PostPress

  /** One catalog row: stage code, display label and group tag. */
  datatype StageInfo = StageInfo(code: string, title: string, group: StageGroup)

  /** The nine stages in their canonical display order. */
  const TrackerStages: seq<StageInfo> := [
    StageInfo("PRE_DESIGN", "Pre-Press: Designing", PrePress),
    StageInfo("PRESS_PRINTING", "Press: Printing", Press),
    StageInfo("POST_LAMINATION", "Post-Press: Lamination", PostPress),
    StageInfo("POST_DIECUT", "Post-Press: Die cutting", PostPress),
    StageInfo("POST_GUILLOTINE", "Post-Press: Guillotine", PostPress),
    StageInfo("POST_BINDING", "Post-Press: Binding", PostPress),
    StageInfo("POST_PACKING", "Post-Press: Packing", PostPress),
    StageInfo("POST_OUT_FOR_DELIVERY", "Post-Press: Out for delivery", PostPress),
    StageInfo("POST_DELIVERED", "Post-Press: Delivered", PostPress)
  ]

  /** The stage a job gets when none is given. */
  const DefaultStage: string := "PRE_DESIGN"

  /** True when `code` is the code of some row of `catalog`. */
  predicate Listed(catalog: seq<StageInfo>, code: string) {
    exists i | 0 <= i < |catalog| :: catalog[i].code == code
  }

  /** Linear search of `catalog` for `code`, returning the label of the
      first matching row, or None when no row matches. */
  function LookupLabel(catalog: seq<StageInfo>, code: string): (r: Option<string>)
    ensures r.Some? <==> Listed(catalog, code)
    ensures r.Some? ==> exists i | 0 <= i < |catalog| ::
              && catalog[i].code == code && catalog[i].title == r.value
              && forall j | 0 <= j < i :: catalog[j].code != code
    decreases |catalog|
  {
    if |catalog| == 0 then None
    else if catalog[0].code == code then Some(catalog[0].title)
    else
      var r := LookupLabel(catalog[1..], code);
      assert Listed(catalog, code) ==> Listed(catalog[1..], code) by {
        if Listed(catalog, code) {
          var i :| 0 <= i < |catalog| && catalog[i].code == code;
          assert i > 0 && catalog[1..][i - 1].code == code;
        }
      }
      if r.Some? then
        var i :| 0 <= i < |catalog[1..]| && catalog[1..][i].code == code && catalog[1..][i].title == r.value
                 && forall j | 0 <= j < i :: catalog[1..][j].code != code;
        assert catalog[i + 1].code == code && catalog[i + 1].title == r.value;
        assert forall j | 0 <= j < i + 1 :: catalog[j].code != code by {
          forall j | 0 <= j < i + 1 ensures catalog[j].code != code {
            if j > 0 { assert catalog[j] == catalog[1..][j - 1]; }
          }
        }
        r
      else
        r
  }

  /** `get_stage_label`: the label of a catalog code, None for any other
      string. */
  function StageLabel(code: string): (r: Option<string>)
    ensures r.Some? <==> Listed(TrackerStages, code)
  {
    LookupLabel(TrackerStages, code)
  }

  /** `get_stage_label(code) or code`: the label when the code is in the
      catalog, otherwise the raw code. */
  function LabelOrCode(code: string): (r: string)
    ensures StageLabel(code).Some? ==> r == StageLabel(code).value
    ensures StageLabel(code).None? ==> r == code
  {
    match StageLabel(code)
    case Some(title) => title
    case None => code
  }

  /** No two catalog rows share a code. */
  lemma CatalogCodesDistinct()
    ensures forall i, j | 0 <= i < j < |TrackerStages| :: TrackerStages[i].code != TrackerStages[j].code
  {
  }

  /** A lookup finds row `i` when no earlier row carries the same code. */
  lemma LookupFindsRow(catalog: seq<StageInfo>, i: int)
    requires 0 <= i < |catalog|
    requires forall j | 0 <= j < i :: catalog[j].code != catalog[i].code
    ensures LookupLabel(catalog, catalog[i].code) == Some(catalog[i].title)
  {
    var code := catalog[i].code;
    assert Listed(catalog, code);
    var r := LookupLabel(catalog, code);
    var k :| 0 <= k < |catalog| && catalog[k].code == code && catalog[k].title == r.value
             && forall j | 0 <= j < k :: catalog[j].code != code;
    assert k == i;
  }

  /** No catalog label is empty, so the `or code` fallback only fires for
      codes outside the catalog. */
  lemma CatalogTitlesNonEmpty()
    ensures forall i | 0 <= i < |TrackerStages| :: |TrackerStages[i].title| > 0
  {
  }

  /** Every catalog code looks up to its own row's label. */
  lemma StageLabelOfCatalog(i: int)
    requires 0 <= i < |TrackerStages|
    ensures StageLabel(TrackerStages[i].code) == Some(TrackerStages[i].title)
  {
    CatalogCodesDistinct();
    LookupFindsRow(TrackerStages, i);
  }

  /** The default stage is the first catalog row. */
  lemma DefaultIsFirstStage()
    ensures DefaultStage == TrackerStages[0].code
    ensures StageLabel(DefaultStage) == Some("Pre-Press: Designing")
  {
    StageLabelOfCatalog(0);
  }
}
