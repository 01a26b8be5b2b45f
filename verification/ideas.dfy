/** Implementation ideas (learning_extractor.py, `generate_implementation_ideas`):
    up to three ideas chosen by keywords in the lower-cased transcript, followed by
    two ideas offered for every transcript, cut to five. */
module Ideas {
  import opened Text
  import opened Unique

  const MaxIdeas: nat := 5

  /** The difficulty labels the ideas use. */
  datatype Difficulty = Easy | Medium

  datatype Idea = Idea(name: string, description: string, difficulty: Difficulty, timeEstimate: string)

  // Each name is written as its first word plus the rest; the first letters of the
  // five names differ, which is what tells the ideas apart.
  const DownloadIdea := Idea("Personal " + "Download Manager",
    "Agent that organizes downloads by type and date", Easy, "1 hour")
  const RepositoryIdea := Idea("Repository " + "Documentation Agent",
    "Automatically extract and summarize repo documentation", Medium, "2-3 hours")
  const WorkflowIdea := Idea("Daily " + "Workflow Automator",
    "Agent that handles repetitive daily tasks", Medium, "2 hours")
  const NotesIdea := Idea("Learning " + "Notes Organizer",
    "Automatically organize and index learning materials", Easy, "1 hour")
  const SnippetIdea := Idea("Code " + "Snippet Manager",
    "Store and retrieve useful code snippets", Easy, "30 minutes")

  /** The two ideas every transcript gets. */
  const GenericIdeas: seq<Idea> := [NotesIdea, SnippetIdea]

  /** Every idea in the order the source may emit them. */
  const AllIdeas: seq<Idea> := [DownloadIdea, RepositoryIdea, WorkflowIdea, NotesIdea, SnippetIdea]

  predicate MentionsDownload(content: string) {
    Contains(Lower(content), "download")
  }

  predicate MentionsRepository(content: string) {
    Contains(Lower(content), "git") || Contains(Lower(content), "repository")
  }

  predicate MentionsWorkflow(content: string) {
    Contains(Lower(content), "workflow")
  }

  function Optional<T>(cond: bool, x: T): seq<T> {
    if cond then [x] else []
  }

  /** The list before the cut to five, in the source's order. */
  function Uncapped(content: string): (r: seq<Idea>)
    ensures 2 <= |r| <= MaxIdeas && r[|r| - 2..] == GenericIdeas
  {
    var keyword := Optional(MentionsDownload(content), DownloadIdea)
      + Optional(MentionsRepository(content), RepositoryIdea)
      + Optional(MentionsWorkflow(content), WorkflowIdea);
    var r := keyword + GenericIdeas;
    assert r[|keyword|..] == GenericIdeas;
    r
  }

  /** The five ideas differ pairwise: their names start with different letters. */
  lemma IdeasDistinct()
    ensures NoDups(AllIdeas)
    ensures DownloadIdea != RepositoryIdea && DownloadIdea != WorkflowIdea
    ensures DownloadIdea != NotesIdea && DownloadIdea != SnippetIdea
    ensures RepositoryIdea != WorkflowIdea && RepositoryIdea != NotesIdea && RepositoryIdea != SnippetIdea
    ensures WorkflowIdea != NotesIdea && WorkflowIdea != SnippetIdea && NotesIdea != SnippetIdea
  {
    assert DownloadIdea.name[0] == 'P' && RepositoryIdea.name[0] == 'R' && WorkflowIdea.name[0] == 'D';
    assert NotesIdea.name[0] == 'L' && SnippetIdea.name[0] == 'C';
  }

  /** Whether the source offers `idea` for `content`: a keyword idea when its keyword
      occurs, a generic idea always, anything else never. */
  predicate Offered(content: string, idea: Idea) {
    if idea == DownloadIdea then MentionsDownload(content)
    else if idea == RepositoryIdea then MentionsRepository(content)
    else if idea == WorkflowIdea then MentionsWorkflow(content)
    else idea in GenericIdeas
  }

  lemma OfferedIdeas(content: string)
    ensures Offered(content, DownloadIdea) == MentionsDownload(content)
    ensures Offered(content, RepositoryIdea) == MentionsRepository(content)
    ensures Offered(content, WorkflowIdea) == MentionsWorkflow(content)
    ensures Offered(content, NotesIdea) && Offered(content, SnippetIdea)
  {
    IdeasDistinct();
  }

  /** The ideas of the catalogue offered for `content`, in catalogue order. */
  function Offering(content: string): seq<Idea> {
    Filter(AllIdeas, idea => Offered(content, idea))
  }

  lemma FilterKeepsPair<T>(d: T, e: T, keep: T -> bool)
    requires keep(d) && keep(e)
    ensures Filter([d, e], keep) == [d, e]
  {
    FilterCons(e, [], keep);
    FilterCons(d, [e], keep);
    assert [e] + [] == [e];
    assert [d] + [e] == [d, e];
  }

  lemma FilterPickTail<T>(b: T, c: T, d: T, e: T, keep: T -> bool)
    requires keep(d) && keep(e)
    ensures Filter([b, c, d, e], keep) == Optional(keep(b), b) + Optional(keep(c), c) + [d, e]
  {
    var ob, oc := Optional(keep(b), b), Optional(keep(c), c);
    assert Filter([c, d, e], keep) == oc + [d, e] by {
      FilterKeepsPair(d, e, keep);
      FilterCons(c, [d, e], keep);
      assert [c] + [d, e] == [c, d, e];
    }
    assert Filter([b, c, d, e], keep) == ob + (oc + [d, e]) by {
      FilterCons(b, [c, d, e], keep);
      assert [b] + [c, d, e] == [b, c, d, e];
    }
    assert ob + (oc + [d, e]) == ob + oc + [d, e];
  }

  /** Filtering five values of which the last two are always kept is picking the first
      three by their flags. */
  lemma FilterPick<T>(a: T, b: T, c: T, d: T, e: T, keep: T -> bool)
    requires keep(d) && keep(e)
    ensures Filter([a, b, c, d, e], keep) == Optional(keep(a), a) + Optional(keep(b), b) + Optional(keep(c), c) + [d, e]
  {
    var oa, ob, oc := Optional(keep(a), a), Optional(keep(b), b), Optional(keep(c), c);
    assert Filter([a, b, c, d, e], keep) == oa + (ob + oc + [d, e]) by {
      FilterPickTail(b, c, d, e, keep);
      FilterCons(a, [b, c, d, e], keep);
      assert [a] + [b, c, d, e] == [a, b, c, d, e];
    }
    assert oa + (ob + oc + [d, e]) == oa + ob + oc + [d, e];
  }

  /** The ideas the source assembles are exactly the catalogue's offered ideas, in
      catalogue order. */
  lemma IdeasFollowCatalogue(content: string)
    ensures Uncapped(content) == Offering(content)
  {
    OfferedIdeas(content);
    var keep := idea => Offered(content, idea);
    FilterPick(DownloadIdea, RepositoryIdea, WorkflowIdea, NotesIdea, SnippetIdea, keep);
  }

  /** What the catalogue offers: only catalogue ideas, each keyword idea exactly when
      its keyword occurs, none twice. */
  lemma OfferingFacts(content: string)
    ensures forall i | 0 <= i < |Offering(content)| :: Offering(content)[i] in AllIdeas
    ensures DownloadIdea in Offering(content) <==> MentionsDownload(content)
    ensures RepositoryIdea in Offering(content) <==> MentionsRepository(content)
    ensures WorkflowIdea in Offering(content) <==> MentionsWorkflow(content)
    ensures NoDups(Offering(content))
  {
    var keep := idea => Offered(content, idea);
    OfferedIdeas(content);
    IdeasDistinct();
    FilterMembers(AllIdeas, keep);
    FilterNoDups(AllIdeas, keep);
    assert AllIdeas[0] == DownloadIdea && AllIdeas[1] == RepositoryIdea && AllIdeas[2] == WorkflowIdea;
  }

  /** `generate_implementation_ideas`: between two and five ideas, the generic two last,
      each keyword idea present exactly when its keyword occurs in the lower-cased
      transcript, and none repeated. */
  function GenerateImplementationIdeas(content: string): (r: seq<Idea>)
    ensures 2 <= |r| <= MaxIdeas
    ensures r[|r| - 2..] == GenericIdeas
    ensures DownloadIdea in r <==> MentionsDownload(content)
    ensures RepositoryIdea in r <==> MentionsRepository(content)
    ensures WorkflowIdea in r <==> MentionsWorkflow(content)
    ensures forall i | 0 <= i < |r| :: r[i] in AllIdeas
    ensures NoDups(r)
  {
    var r := Take(Uncapped(content), MaxIdeas);
    assert r == Offering(content) by {
      IdeasFollowCatalogue(content);
    }
    OfferingFacts(content);
    r
  }

  /** The cut to five never removes anything: at most three keyword ideas precede the
      two generic ones. */
  lemma CapNeverBites(content: string)
    ensures GenerateImplementationIdeas(content) == Uncapped(content)
  {
  }
}
