/** Workflows (learning_extractor.py, `extract_workflows`): each labelled section of
    numbered lines becomes one record holding its step texts in order. A section is
    given as the list of step texts the step pattern captured in it. */
module Workflows {
  import opened Unique

  datatype Workflow = Workflow(name: string, steps: seq<string>)

  const WorkflowName := "Extracted Workflow"

  function Concat(sections: seq<seq<string>>): seq<string> {
    if |sections| == 0 then [] else sections[0] + Concat(sections[1..])
  }

  /** All steps of all records, in order. */
  function AllSteps(ws: seq<Workflow>): seq<string> {
    if |ws| == 0 then [] else ws[0].steps + AllSteps(ws[1..])
  }

  /** A section in which the step pattern found something. */
  predicate HasSteps(section: seq<string>) {
    |section| > 0
  }

  /** `extract_workflows`: one record per section with steps, in section order, each
      with the placeholder name and that section's steps; no step is lost, added or
      reordered. */
  function ExtractWorkflows(sections: seq<seq<string>>): (r: seq<Workflow>)
    ensures |r| == |Filter(sections, HasSteps)|
    ensures forall i | 0 <= i < |r| :: r[i] == Workflow(WorkflowName, Filter(sections, HasSteps)[i])
    ensures forall w | w in r :: w.name == WorkflowName && |w.steps| > 0 && w.steps in sections
    ensures AllSteps(r) == Concat(sections)
  {
    if |sections| == 0 then []
    else
      var rest := ExtractWorkflows(sections[1..]);
      assert forall s | s in sections[1..] :: s in sections;
      FilterCons(sections[0], sections[1..], HasSteps);
      assert sections == [sections[0]] + sections[1..];
      if |sections[0]| > 0 then
        var r := [Workflow(WorkflowName, sections[0])] + rest;
        assert r[1..] == rest;
        r
      else
        rest
  }

  /** Sections are handled independently and in source order. */
  lemma {:induction false} ExtractWorkflowsAppend(a: seq<seq<string>>, b: seq<seq<string>>)
    ensures ExtractWorkflows(a + b) == ExtractWorkflows(a) + ExtractWorkflows(b)
    decreases |a|
  {
    if |a| > 0 {
      assert (a + b)[1..] == a[1..] + b;
      ExtractWorkflowsAppend(a[1..], b);
    } else {
      assert a + b == b;
    }
  }

  /** A section with at least one step gives one record; one with none gives nothing. */
  lemma ExtractWorkflowsSingle(section: seq<string>)
    ensures |section| > 0 ==> ExtractWorkflows([section]) == [Workflow(WorkflowName, section)]
    ensures |section| == 0 ==> ExtractWorkflows([section]) == []
  {
    assert [section][1..] == [];
  }
}
