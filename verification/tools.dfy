/** Tools (learning_extractor.py, `extract_tools`): candidate names captured by the
    tool patterns, kept only when their lower-cased form is a key of a fixed table. */
module Tools {
  import opened Text
  import opened Unique

  datatype Tool = Tool(name: string, purpose: string, category: string)

  /** The known-tools table: lower-cased name to purpose. */
  const KnownTools: map<string, string> := map[
    "gallery-dl" := "Downloads images from galleries",
    "aria2" := "Fast parallel downloader",
    "yt-dlp" := "YouTube video downloader",
    "gitingest" := "Converts repos to LLM-readable format",
    "click" := "Python CLI framework",
    "claude code" := "AI coding assistant",
    "cursor" := "AI-powered code editor"]

  const ToolCategory := "CLI Tool"

  function Names(ts: seq<Tool>): (r: seq<string>)
    ensures |r| == |ts| && forall i | 0 <= i < |ts| :: r[i] == ts[i].name
  {
    seq(|ts|, i requires 0 <= i < |ts| => ts[i].name)
  }

  /** A record `table` vouches for: known name, the table's purpose, the fixed category. */
  predicate Known(table: map<string, string>, t: Tool) {
    Lower(t.name) in table && t.purpose == table[Lower(t.name)] && t.category == ToolCategory
  }

  /** The table lookup over candidates taken one by one: unknown names give nothing,
      a known name gives one record with the table's purpose. */
  function Lookup(table: map<string, string>, candidates: seq<string>): (r: seq<Tool>)
    ensures forall i | 0 <= i < |r| :: Known(table, r[i]) && r[i].name in candidates
    ensures |r| <= |candidates|
  {
    if |candidates| == 0 then []
    else
      var c := candidates[0];
      var rest := Lookup(table, candidates[1..]);
      assert forall x | x in candidates[1..] :: x in candidates;
      if Lower(c) in table then [Tool(c, table[Lower(c)], ToolCategory)] + rest else rest
  }

  /** Every candidate the table knows gets a record. */
  lemma {:induction false} LookupComplete(table: map<string, string>, candidates: seq<string>)
    ensures forall c | c in candidates :: Lower(c) in table ==> c in Names(Lookup(table, candidates))
    decreases |candidates|
  {
    if |candidates| > 0 {
      var c := candidates[0];
      LookupComplete(table, candidates[1..]);
      assert forall x | x in candidates :: x == c || x in candidates[1..];
      NamesCons(table, candidates);
    }
  }

  /** Distinct candidates give distinct names. */
  lemma {:induction false} LookupDistinct(table: map<string, string>, candidates: seq<string>)
    requires NoDups(candidates)
    ensures NoDups(Names(Lookup(table, candidates)))
    decreases |candidates|
  {
    if |candidates| > 0 {
      var c := candidates[0];
      LookupDistinct(table, candidates[1..]);
      assert c !in candidates[1..];
      NamesCons(table, candidates);
    }
  }

  /** One lookup step, seen through the names. */
  lemma NamesCons(table: map<string, string>, candidates: seq<string>)
    requires |candidates| > 0
    ensures var c := candidates[0];
      var rest := Names(Lookup(table, candidates[1..]));
      Names(Lookup(table, candidates)) == if Lower(c) in table then [c] + rest else rest
  {
  }

  /** `extract_tools`: the candidates of all patterns are pooled in a set, then looked up
      in the known-tools table. Every record is vouched for by the table and names a
      candidate; every candidate the table knows gets a record; no name appears twice. */
  function ExtractTools(candidates: seq<string>): (r: seq<Tool>)
    ensures forall i | 0 <= i < |r| :: Known(KnownTools, r[i]) && r[i].name in candidates
    ensures forall c | c in candidates :: Lower(c) in KnownTools ==> c in Names(r)
    ensures NoDups(Names(r))
    ensures |r| <= |Elems(candidates)|
  {
    var d := Dedup(candidates);
    DedupSize(candidates);
    assert forall c | c in candidates :: c in Elems(d);
    assert forall c | c in d :: c in Elems(candidates);
    LookupComplete(KnownTools, d);
    LookupDistinct(KnownTools, d);
    Lookup(KnownTools, d)
  }

  /** The keys of the table that hold neither '-' nor ' '. */
  lemma WordKeys(n: string)
    requires n in KnownTools && '-' !in n && ' ' !in n
    ensures n in {"aria2", "gitingest", "click", "cursor"}
  {
    assert "gallery-dl"[7] == '-' && "yt-dlp"[2] == '-' && "claude code"[6] == ' ';
  }

  /** The tool patterns capture `\w+` runs, which hold neither '-' nor ' '. Such
      candidates can only ever produce four of the seven table entries: "gallery-dl",
      "yt-dlp" and "claude code" are unreachable. */
  lemma WordCandidatesReachFourTools(candidates: seq<string>)
    requires forall c | c in candidates :: '-' !in c && ' ' !in c
    ensures forall t | t in ExtractTools(candidates) ::
      Lower(t.name) in {"aria2", "gitingest", "click", "cursor"}
  {
    var r := ExtractTools(candidates);
    forall t | t in r ensures Lower(t.name) in {"aria2", "gitingest", "click", "cursor"} {
      var n := Lower(t.name);
      assert t.name in candidates;
      assert '-' !in n && ' ' !in n by {
        forall k | 0 <= k < |n| ensures n[k] != '-' && n[k] != ' ' {
          assert t.name[k] in t.name;
        }
      }
      WordKeys(n);
    }
  }
}
