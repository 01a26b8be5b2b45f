/** The whole extraction (learning_extractor.py, `extract_from_transcript`): every
    component computed from the same transcript. Pattern searches are not modelled;
    their results for the transcript arrive together as `Matches`. */
module Extractor {
  import opened Wrappers
  import opened Text
  import opened Unique
  import opened Metadata
  import opened Concepts
  import opened Tools
  import opened Commands
  import opened Workflows
  import opened CodeBlocks
  import opened ActionItems
  import opened Ideas

  /** What the source's regular expressions find in one transcript. */
  datatype Matches = Matches(
    url: Option<string>,
    duration: Option<string>,
    date: Option<string>,
    sentencesOf: string -> seq<string>,
    toolCandidates: seq<string>,
    backtickCommands: seq<string>,
    runCommands: seq<string>,
    promptCommands: seq<string>,
    workflowSections: seq<seq<string>>,
    fences: seq<Fence>,
    youShould: seq<string>,
    tryTo: seq<string>,
    buildA: seq<string>)

  /** The extracted learning record. */
  datatype Learning = Learning(
    metadata: Metadata,
    keyConcepts: seq<Concept>,
    toolsMentioned: seq<Tool>,
    commandsShown: seq<string>,
    workflows: seq<Workflow>,
    codeExamples: seq<CodeBlock>,
    actionItems: seq<string>,
    implementationIdeas: seq<Idea>)

  /** `extract_from_transcript` after the file is read: each component within its cap,
      and the action items built from the same tools the record reports. */
  function ExtractLearning(content: string, m: Matches): (l: Learning)
    ensures l.metadata.url == m.url && (l.metadata.videoId.Some? <==> m.url.Some?)
    ensures |l.keyConcepts| <= MaxConcepts
    ensures forall i | 0 <= i < |l.toolsMentioned| :: l.toolsMentioned[i].name in m.toolCandidates
    ensures |l.commandsShown| <= MaxCommands
    ensures |l.workflows| <= |m.workflowSections|
    ensures |l.codeExamples| <= |m.fences|
    ensures |l.actionItems| <= MaxActionItems
    ensures 2 <= |l.implementationIdeas| <= MaxIdeas
    ensures l.actionItems == GenerateActionItems(l.toolsMentioned, m.youShould, m.tryTo, m.buildA)
  {
    var metadata := ExtractMetadata(m.url, m.duration, m.date);
    var concepts := ExtractConcepts(content, m.sentencesOf);
    var tools := ExtractTools(m.toolCandidates);
    var commands := ExtractCommands(m.backtickCommands, m.runCommands, m.promptCommands);
    var workflows := ExtractWorkflows(m.workflowSections);
    var blocks := ExtractCodeBlocks(m.fences);
    var items := GenerateActionItems(tools, m.youShould, m.tryTo, m.buildA);
    var ideas := GenerateImplementationIdeas(content);
    Learning(metadata, concepts, tools, commands, workflows, blocks, items, ideas)
  }

  /** Every install task in the record names one of the first three tools the record
      reports, with that tool's purpose. */
  lemma InstallTasksNameReportedTools(content: string, m: Matches)
    ensures var l := ExtractLearning(content, m);
      forall x | x in l.actionItems && ToolPrefix <= x ::
        exists i | 0 <= i < |l.toolsMentioned| && i < MaxToolItems :: x == ToolItem(l.toolsMentioned[i])
  {
    var l := ExtractLearning(content, m);
    InstallTasksFromTools(l.toolsMentioned, m.youShould, m.tryTo, m.buildA);
  }
}
