/** Action items (learning_extractor.py, `generate_action_items`): install tasks for
    the first three tools, "Try to ..." tasks from at most two captures of each
    suggestion pattern, and three fixed tasks, de-duplicated and capped at ten. */
module ActionItems {
  import opened Text
  import opened Unique
  import opened Tools

  const MaxActionItems: nat := 10
  const MaxToolItems: nat := 3
  const MaxPerPattern: nat := 2
  const MaxSuggestionLength: nat := 100

  const ToolPrefix := "Install and test "
  const SuggestionPrefix := "Try to "

  /** The three tasks added whatever the transcript says, each written as its leading
      verb and the rest; the lemmas below tell them apart by that verb. */
  const FixedItems: seq<string> := [
    "Create " + "a claude.md file for your most common workflow",
    "Build " + "a simple CLI tool using Click framework",
    "Test " + "bash commands through Claude Code"]

  /** A string carrying both prefixes would start with both 'I' and 'T'. */
  lemma PrefixesExclusive(x: string)
    ensures !(ToolPrefix <= x && SuggestionPrefix <= x)
  {
    if ToolPrefix <= x {
      assert x[0] == ToolPrefix[0] == 'I';
    }
  }

  /** Neither prefix starts a fixed task. */
  lemma FixedItemsUnprefixed()
    ensures forall f | f in FixedItems :: !(ToolPrefix <= f) && !(SuggestionPrefix <= f)
  {
    assert FixedItems[0][0] == 'C' && FixedItems[1][0] == 'B' && FixedItems[2][1] == 'e';
  }

  /** "Install and test <name>: <purpose>". */
  function ToolItem(t: Tool): (r: string)
    ensures ToolPrefix <= r
  {
    var r := ToolPrefix + (t.name + ": " + t.purpose);
    assert r[..|ToolPrefix|] == ToolPrefix;
    r
  }

  /** "Try to <capture, stripped>". */
  function Suggestion(m: string): (r: string)
    ensures SuggestionPrefix <= r
  {
    var r := SuggestionPrefix + Strip(m);
    assert r[..|SuggestionPrefix|] == SuggestionPrefix;
    r
  }

  /** Install tasks for the first three tools, in order. */
  function ToolItems(tools: seq<Tool>): (r: seq<string>)
    ensures |r| == if |tools| <= MaxToolItems then |tools| else MaxToolItems
    ensures forall i | 0 <= i < |r| :: r[i] == ToolItem(tools[i])
    ensures forall x | x in r :: ToolPrefix <= x
  {
    var firstTools := Take(tools, MaxToolItems);
    seq(|firstTools|, i requires 0 <= i < |firstTools| => ToolItem(firstTools[i]))
  }

  /** A capture the length test lets through. */
  predicate Reasonable(m: string) {
    |m| < MaxSuggestionLength
  }

  /** Suggestion tasks for those of `matches` shorter than 100 characters, in order. */
  function Suggest(matches: seq<string>): (r: seq<string>)
    ensures |r| <= |matches|
    ensures forall i | 0 <= i < |r| :: SuggestionPrefix <= r[i]
    ensures forall i | 0 <= i < |r| :: ImageOfKept(matches, Reasonable, Suggestion, r[i])
    ensures forall j | 0 <= j < |matches| && Reasonable(matches[j]) :: Suggestion(matches[j]) in r
  {
    var r := KeepMap(matches, Reasonable, Suggestion);
    KeepMapMembers(matches, Reasonable, Suggestion);
    assert forall i | 0 <= i < |r| :: ImageOfKept(matches, Reasonable, Suggestion, r[i]);
    r
  }

  /** `x` is the task of one of the first two captures of a pattern, and that capture
      is shorter than 100 characters. */
  predicate FromCapture(matches: seq<string>, x: string) {
    ImageOfKept(Take(matches, MaxPerPattern), Reasonable, Suggestion, x)
  }

  /** Every one of the first two captures of a pattern that is shorter than 100
      characters has its task in `r`. */
  predicate HasEveryTask(matches: seq<string>, r: seq<string>) {
    forall j | 0 <= j < |matches| && j < MaxPerPattern && Reasonable(matches[j]) :: Suggestion(matches[j]) in r
  }

  /** Tasks from one suggestion pattern: exactly those of its first two captures that
      are shorter than 100 characters. */
  function SuggestionItems(matches: seq<string>): (r: seq<string>)
    ensures |r| <= MaxPerPattern
    ensures forall i | 0 <= i < |r| :: SuggestionPrefix <= r[i]
    ensures forall x | x in r :: FromCapture(matches, x)
    ensures HasEveryTask(matches, r)
  {
    var first := Take(matches, MaxPerPattern);
    var r := Suggest(first);
    assert forall x | x in r :: exists i | 0 <= i < |r| :: r[i] == x;
    assert forall j | 0 <= j < |first| :: first[j] == matches[j];
    r
  }

  /** The suggestion tasks of the three patterns, in the source's order: "you should",
      "try to", "build a". Each comes from an early enough, short enough capture of one
      of them, and every such capture gives its task. */
  function AllSuggestions(youShould: seq<string>, tryTo: seq<string>, buildA: seq<string>): (r: seq<string>)
    ensures |r| <= 3 * MaxPerPattern
    ensures forall i | 0 <= i < |r| :: SuggestionPrefix <= r[i]
    ensures forall x | x in r :: FromCapture(youShould, x) || FromCapture(tryTo, x) || FromCapture(buildA, x)
    ensures HasEveryTask(youShould, r) && HasEveryTask(tryTo, r) && HasEveryTask(buildA, r)
  {
    var a, b, c := SuggestionItems(youShould), SuggestionItems(tryTo), SuggestionItems(buildA);
    var r := a + b + c;
    ConcatThree(a, b, c);
    HasEveryTaskGrows(youShould, a, r);
    HasEveryTaskGrows(tryTo, b, r);
    HasEveryTaskGrows(buildA, c, r);
    r
  }

  /** A value of a concatenation of three lists is a value of one of them, and each of
      their values is one of the concatenation's. */
  lemma ConcatThree<T>(a: seq<T>, b: seq<T>, c: seq<T>)
    ensures forall x | x in a + b + c :: x in a || x in b || x in c
    ensures forall x | x in a :: x in a + b + c
    ensures forall x | x in b :: x in a + b + c
    ensures forall x | x in c :: x in a + b + c
  {
    assert forall x | x in a + b + c :: x in a + b || x in c;
  }

  /** A list that holds every task of a pattern's captures still does when it grows. */
  lemma HasEveryTaskGrows(matches: seq<string>, a: seq<string>, r: seq<string>)
    requires HasEveryTask(matches, a)
    requires forall x | x in a :: x in r
    ensures HasEveryTask(matches, r)
  {
  }

  /** The tasks made from one of the first three tools. */
  predicate ToolTask(tools: seq<Tool>, x: string) {
    exists i | 0 <= i < |tools| && i < MaxToolItems :: x == ToolItem(tools[i])
  }

  /** Every task before de-duplication, in the order the source builds them: the tool
      tasks, the suggestion tasks, then the three fixed tasks. Each is a tool task, a
      task from a capture, or a fixed task. */
  function Candidates(tools: seq<Tool>, youShould: seq<string>, tryTo: seq<string>, buildA: seq<string>): (r: seq<string>)
    ensures |r| <= MaxToolItems + 3 * MaxPerPattern + |FixedItems|
    ensures |r| >= |FixedItems| && r[|r| - |FixedItems|..] == FixedItems
    ensures forall x | x in r ::
      ToolTask(tools, x) || FromCapture(youShould, x) || FromCapture(tryTo, x) || FromCapture(buildA, x) || x in FixedItems
    ensures forall i | 0 <= i < |tools| && i < MaxToolItems :: ToolItem(tools[i]) in r
    ensures HasEveryTask(youShould, r) && HasEveryTask(tryTo, r) && HasEveryTask(buildA, r)
  {
    var t, u := ToolItems(tools), AllSuggestions(youShould, tryTo, buildA);
    var r := t + u + FixedItems;
    assert r[|t + u|..] == FixedItems;
    assert forall i | 0 <= i < |t| :: r[i] == t[i];
    assert forall x | x in u :: x in r;
    HasEveryTaskGrows(youShould, u, r);
    HasEveryTaskGrows(tryTo, u, r);
    HasEveryTaskGrows(buildA, u, r);
    forall x | x in r
      ensures ToolTask(tools, x) || FromCapture(youShould, x) || FromCapture(tryTo, x) || FromCapture(buildA, x) || x in FixedItems
    {
      if x in t {
        var i :| 0 <= i < |t| && t[i] == x;
        assert x == ToolItem(tools[i]);
      }
    }
    r
  }

  /** `generate_action_items`: at most ten distinct tasks, all of them candidates, as
      many as there are distinct candidates up to the cap; when fewer than ten are
      kept, every candidate is there. */
  function GenerateActionItems(tools: seq<Tool>, youShould: seq<string>, tryTo: seq<string>, buildA: seq<string>): (r: seq<string>)
    ensures |r| <= MaxActionItems
    ensures NoDups(r)
    ensures Elems(r) <= Elems(Candidates(tools, youShould, tryTo, buildA))
    ensures |r| == if |Elems(Candidates(tools, youShould, tryTo, buildA))| <= MaxActionItems
                   then |Elems(Candidates(tools, youShould, tryTo, buildA))| else MaxActionItems
    ensures |r| < MaxActionItems ==> Elems(r) == Elems(Candidates(tools, youShould, tryTo, buildA))
  {
    TakeUnique(Candidates(tools, youShould, tryTo, buildA), MaxActionItems)
  }

  /** Tasks drawn from the tools. */
  function FromTools(items: seq<string>): set<string> {
    set x | x in items && ToolPrefix <= x
  }

  /** Tasks drawn from the suggestion patterns. */
  function FromSuggestions(items: seq<string>): set<string> {
    set x | x in items && SuggestionPrefix <= x
  }

  /** Tool tasks, suggestion tasks and fixed tasks can be told apart by their prefix. */
  lemma GroupsAreDistinguishable(t: seq<string>, u: seq<string>)
    requires forall i | 0 <= i < |t| :: ToolPrefix <= t[i]
    requires forall i | 0 <= i < |u| :: SuggestionPrefix <= u[i]
    ensures forall x | x in t + u + FixedItems && ToolPrefix <= x :: x in t
    ensures forall x | x in t + u + FixedItems && SuggestionPrefix <= x :: x in u
  {
    FixedItemsUnprefixed();
    forall x | x in t + u + FixedItems ensures !(ToolPrefix <= x && SuggestionPrefix <= x) {
      PrefixesExclusive(x);
    }
  }

  /** The tasks kept from `t + u + FixedItems` include at most as many tool tasks as `t`
      holds and at most as many suggestion tasks as `u` holds. */
  lemma GroupsBounded(t: seq<string>, u: seq<string>, r: seq<string>)
    requires forall i | 0 <= i < |t| :: ToolPrefix <= t[i]
    requires forall i | 0 <= i < |u| :: SuggestionPrefix <= u[i]
    requires Elems(r) <= Elems(t + u + FixedItems)
    ensures |FromTools(r)| <= |t|
    ensures |FromSuggestions(r)| <= |u|
  {
    GroupsAreDistinguishable(t, u);
    forall x | x in r ensures x in t + u + FixedItems {
      assert x in Elems(r);
    }
    assert FromTools(r) <= Elems(t);
    ElemsCard(t);
    SubsetCard(FromTools(r), Elems(t));
    assert FromSuggestions(r) <= Elems(u);
    ElemsCard(u);
    SubsetCard(FromSuggestions(r), Elems(u));
  }

  /** At most three tasks come from tools and at most six from suggestion patterns. */
  lemma GroupBounds(tools: seq<Tool>, youShould: seq<string>, tryTo: seq<string>, buildA: seq<string>)
    ensures |FromTools(GenerateActionItems(tools, youShould, tryTo, buildA))| <= MaxToolItems
    ensures |FromSuggestions(GenerateActionItems(tools, youShould, tryTo, buildA))| <= 3 * MaxPerPattern
  {
    GroupsBounded(ToolItems(tools), AllSuggestions(youShould, tryTo, buildA), GenerateActionItems(tools, youShould, tryTo, buildA));
  }

  /** The three fixed tasks differ: they start with different letters. */
  lemma FixedItemsDistinct()
    ensures NoDups(FixedItems)
  {
    assert FixedItems[0][0] == 'C' && FixedItems[1][0] == 'B' && FixedItems[2][0] == 'T';
  }

  /** Without tools or suggestion captures, only the fixed tasks are candidates. */
  lemma OnlyFixedCandidates()
    ensures Candidates([], [], [], []) == FixedItems
  {
    assert ToolItems([]) == [];
    assert Suggest([]) == [];
    assert AllSuggestions([], [], []) == [];
  }

  /** With no tools and no suggestion captures, the tasks are the three fixed ones, in
      whatever order the set gives; in the model's first-occurrence order they come
      exactly as listed. */
  lemma OnlyFixedItemsWithoutContent()
    ensures Elems(GenerateActionItems([], [], [], [])) == Elems(FixedItems)
    ensures |GenerateActionItems([], [], [], [])| == |FixedItems|
    ensures GenerateActionItems([], [], [], []) == FixedItems
  {
    OnlyFixedCandidates();
    FixedItemsDistinct();
    TakeUniqueNoDups(FixedItems, MaxActionItems);
  }

  lemma SuffixMembers(a: seq<string>, b: seq<string>)
    ensures forall x | x in b :: x in Elems(a + b)
  {
    forall x | x in b ensures x in Elems(a + b) {
      var i :| 0 <= i < |b| && b[i] == x;
      assert (a + b)[|a| + i] == x;
    }
  }

  /** When the candidates hold at most ten distinct tasks, every fixed task is kept. */
  lemma FixedItemsKeptWhenFew(tools: seq<Tool>, youShould: seq<string>, tryTo: seq<string>, buildA: seq<string>)
    requires |Elems(Candidates(tools, youShould, tryTo, buildA))| <= MaxActionItems
    ensures forall f | f in FixedItems :: f in GenerateActionItems(tools, youShould, tryTo, buildA)
  {
    var c := Candidates(tools, youShould, tryTo, buildA);
    TakeUniqueKeepsAll(c, MaxActionItems);
    SuffixMembers(ToolItems(tools) + AllSuggestions(youShould, tryTo, buildA), FixedItems);
  }

  /** Every kept install task is made from one of the first three tools given. */
  lemma InstallTasksFromTools(tools: seq<Tool>, youShould: seq<string>, tryTo: seq<string>, buildA: seq<string>)
    ensures forall x | x in GenerateActionItems(tools, youShould, tryTo, buildA) && ToolPrefix <= x ::
      exists i | 0 <= i < |tools| && i < MaxToolItems :: x == ToolItem(tools[i])
  {
    var r := GenerateActionItems(tools, youShould, tryTo, buildA);
    var t := ToolItems(tools);
    var u := AllSuggestions(youShould, tryTo, buildA);
    GroupsAreDistinguishable(t, u);
    forall x | x in r && ToolPrefix <= x
      ensures exists i | 0 <= i < |tools| && i < MaxToolItems :: x == ToolItem(tools[i])
    {
      assert x in Elems(r);
      assert x in t;
      var i :| 0 <= i < |t| && t[i] == x;
      assert x == ToolItem(tools[i]);
    }
  }

  /** Every kept "Try to " task is the task of one of the first two captures of one
      suggestion pattern, and that capture is shorter than 100 characters. */
  lemma SuggestionTasksFromCaptures(tools: seq<Tool>, youShould: seq<string>, tryTo: seq<string>, buildA: seq<string>)
    ensures forall x | x in GenerateActionItems(tools, youShould, tryTo, buildA) && SuggestionPrefix <= x ::
      FromCapture(youShould, x) || FromCapture(tryTo, x) || FromCapture(buildA, x)
  {
    var r := GenerateActionItems(tools, youShould, tryTo, buildA);
    var t := ToolItems(tools);
    var u := AllSuggestions(youShould, tryTo, buildA);
    GroupsAreDistinguishable(t, u);
    forall x | x in r && SuggestionPrefix <= x
      ensures FromCapture(youShould, x) || FromCapture(tryTo, x) || FromCapture(buildA, x)
    {
      assert x in Elems(r);
      assert x in u;
    }
  }
}
