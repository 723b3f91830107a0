/** The colouring of the `Status` column: a status string is mapped to a
    cell style by testing for keywords in a fixed order. */
module Styling {
  import opened Text
  import opened Availability

  const WfhStyle: string := "background-color: #d1e7dd; color: black"
  const SickStyle: string := "background-color: #f8d7da; color: black"
  const OfficeStyle: string := "background-color: #cff4fc; color: black"
  const WorkshopStyle: string := "background-color: #fff3cd; color: black"

  /** The keywords in the order they are tested, and the style each selects. */
  const Keywords: seq<string> := ["WFH", "Sick", "Office", "Workshop"]
  const Styles: seq<string> := [WfhStyle, SickStyle, OfficeStyle, WorkshopStyle]

  /** The style of a status cell; the empty string means no styling. */
  function HighlightStatus(val: string): (style: string)
    ensures style == "" || style in Styles
  {
    if Contains(val, "WFH") then WfhStyle
    else if Contains(val, "Sick") then SickStyle
    else if Contains(val, "Office") then OfficeStyle
    else if Contains(val, "Workshop") then WorkshopStyle
    else ""
  }

  /** The four styles are non-empty and pairwise different. */
  lemma StylesDistinct()
    ensures forall i :: 0 <= i < |Styles| ==> Styles[i] != ""
    ensures forall i, j :: 0 <= i < j < |Styles| ==> Styles[i] != Styles[j]
  {
  }

  /** First match wins: the style is that of keyword `k` exactly when the
      status mentions keyword `k` and none of the keywords tested before it. */
  lemma HighlightFirstMatch(val: string, k: nat)
    requires k < |Keywords|
    ensures HighlightStatus(val) == Styles[k] <==>
              Contains(val, Keywords[k]) && forall j :: 0 <= j < k ==> !Contains(val, Keywords[j])
  {
    StylesDistinct();
    assert Keywords[0] == "WFH" && Keywords[1] == "Sick" && Keywords[2] == "Office" && Keywords[3] == "Workshop";
  }

  /** A status that mentions no keyword is left unstyled, and only such a status. */
  lemma HighlightEmpty(val: string)
    ensures HighlightStatus(val) == "" <==> forall j :: 0 <= j < |Keywords| ==> !Contains(val, Keywords[j])
  {
    StylesDistinct();
    assert Keywords[0] == "WFH" && Keywords[1] == "Sick" && Keywords[2] == "Office" && Keywords[3] == "Workshop";
  }

  /** "WFH" beats every other keyword: any status with "WFH" somewhere in
      it is styled green, whatever else it contains. */
  lemma WfhWins(before: string, after: string)
    ensures HighlightStatus(before + "WFH" + after) == WfhStyle
  {
    assert OccursAt("WFH", "WFH", 0);
    ContainsExtended("WFH", "WFH", before, after);
  }

  /** The style a status gets once it is known which of the keywords it
      contains: the first one it contains decides. */
  lemma FirstKeywordDecides(val: string, k: nat)
    requires k < |Keywords| && Contains(val, Keywords[k])
    requires forall j :: 0 <= j < k ==> !Contains(val, Keywords[j])
    ensures HighlightStatus(val) == Styles[k]
  {
    assert Keywords[0] == "WFH" && Keywords[1] == "Sick" && Keywords[2] == "Office";
  }

  lemma HighlightOffice()
    ensures HighlightStatus(Office) == OfficeStyle
  {
    MissingCharRulesOut(Office, "WFH", 0);
    MissingCharRulesOut(Office, "Sick", 0);
    assert OccursAt(Office, "Office", 2);
    FirstKeywordDecides(Office, 2);
  }

  lemma HighlightWfh()
    ensures HighlightStatus(Wfh) == WfhStyle
  {
    assert OccursAt(Wfh, "WFH", 2);
    FirstKeywordDecides(Wfh, 0);
  }

  lemma HighlightSick()
    ensures HighlightStatus(SickAway) == SickStyle
  {
    MissingCharRulesOut(SickAway, "WFH", 0);
    assert OccursAt(SickAway, "Sick", 2);
    FirstKeywordDecides(SickAway, 1);
  }

  lemma HighlightWorkshop()
    ensures HighlightStatus(Workshop) == WorkshopStyle
  {
    MissingCharRulesOut(Workshop, "WFH", 1);
    MissingCharRulesOut(Workshop, "Sick", 0);
    MissingCharRulesOut(Workshop, "Office", 0);
    assert OccursAt(Workshop, "Workshop", 3);
    FirstKeywordDecides(Workshop, 3);
  }

  /** The default status mentions no keyword and is left unstyled. */
  lemma HighlightNotUpdated()
    ensures HighlightStatus(NotUpdated) == ""
  {
    MissingCharRulesOut(NotUpdated, "WFH", 0);
    MissingCharRulesOut(NotUpdated, "Sick", 0);
    MissingCharRulesOut(NotUpdated, "Office", 0);
    MissingCharRulesOut(NotUpdated, "Workshop", 0);
  }

  /** Each radio choice gets its own non-empty style. */
  lemma HighlightOptions()
    ensures HighlightStatus(Office) == OfficeStyle && HighlightStatus(Wfh) == WfhStyle
    ensures HighlightStatus(SickAway) == SickStyle && HighlightStatus(Workshop) == WorkshopStyle
    ensures forall i, j :: 0 <= i < j < |StatusOptions| ==>
              HighlightStatus(StatusOptions[i]) != HighlightStatus(StatusOptions[j])
    ensures forall i :: 0 <= i < |StatusOptions| ==> HighlightStatus(StatusOptions[i]) != ""
  {
    HighlightOffice();
    HighlightWfh();
    HighlightSick();
    HighlightWorkshop();
    StylesDistinct();
    assert StatusOptions == [Office, Wfh, SickAway, Workshop];
    assert Styles == [WfhStyle, SickStyle, OfficeStyle, WorkshopStyle];
  }

  /** On a board whose statuses are all radio choices or the default, a
      cell is unstyled exactly when its row is not updated. */
  lemma HighlightKnown(s: string)
    requires KnownStatus(s)
    ensures HighlightStatus(s) == "" <==> s == NotUpdated
  {
    if s == NotUpdated {
      HighlightNotUpdated();
    } else {
      var i :| 0 <= i < |StatusOptions| && StatusOptions[i] == s;
      HighlightOptions();
      assert HighlightStatus(StatusOptions[i]) != "";
    }
  }
}
