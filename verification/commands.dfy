/** Commands (learning_extractor.py, `extract_commands`): the captures of the
    backtick, run/execute and shell-prompt patterns, length-filtered, stripped,
    de-duplicated and capped. */
module Commands {
  import opened Text
  import opened Unique

  const MaxCommands: nat := 20
  const MaxCommandLength: nat := 100

  /** A capture the length test lets through. */
  predicate Short(m: string) {
    |m| < MaxCommandLength
  }

  /** `[cmd.strip() for cmd in commands if len(cmd) < 100]`: the stripped form of
      every short capture and of nothing else. The length test is on the raw capture,
      so the stripped command is short as well. */
  function Clean(matches: seq<string>): (r: seq<string>)
    ensures |r| <= |matches|
    ensures forall x | x in r :: IsStripped(x) && |x| < MaxCommandLength
    ensures forall x | x in r :: ImageOfKept(matches, Short, Strip, x)
    ensures forall m | m in matches :: Short(m) ==> Strip(m) in r
  {
    var r := KeepMap(matches, Short, Strip);
    KeepMapMembers(matches, Short, Strip);
    forall x | x in r ensures IsStripped(x) && |x| < MaxCommandLength {
      var i :| 0 <= i < |r| && r[i] == x;
      assert ImageOfKept(matches, Short, Strip, r[i]);
    }
    r
  }

  /** `extract_commands`: at most twenty distinct stripped commands, each shorter than
      100 characters and the stripped form of a short enough capture; when fewer than
      twenty are kept, every short enough capture is represented. */
  function ExtractCommands(backticks: seq<string>, runs: seq<string>, prompts: seq<string>): (r: seq<string>)
    ensures |r| <= MaxCommands
    ensures NoDups(r)
    ensures forall x | x in r :: IsStripped(x) && |x| < MaxCommandLength
    ensures forall x | x in r :: ImageOfKept(backticks + runs + prompts, Short, Strip, x)
    ensures |r| < MaxCommands ==>
      forall m | m in backticks + runs + prompts :: Short(m) ==> Strip(m) in r
  {
    var cleaned := Clean(backticks + runs + prompts);
    var r := TakeUnique(cleaned, MaxCommands);
    assert forall x | x in r :: x in Elems(cleaned);
    assert |r| < MaxCommands ==> forall x | x in cleaned :: x in Elems(r);
    r
  }
}
