/** Code examples (learning_extractor.py, `extract_code_blocks`): fenced regions given
    as their language tag and body, kept when the body is not blank. */
module CodeBlocks {
  import opened Text
  import opened Unique

  datatype Fence = Fence(tag: string, body: string)

  datatype CodeBlock = CodeBlock(language: string, code: string, lines: nat)

  const DefaultLanguage := "python"

  /** A fence whose body has something besides whitespace. */
  predicate HasCode(f: Fence) {
    Strip(f.body) != []
  }

  /** The record of one fence: `match.group(1) or 'python'`, the stripped body, and
      `len(code.strip().split('\n'))`. */
  function ToBlock(f: Fence): (b: CodeBlock)
    ensures b.language == if f.tag == [] then DefaultLanguage else f.tag
    ensures b.language != []
    ensures IsStripped(b.code) && (b.code != [] <==> HasCode(f))
    ensures b.lines == CountChar(b.code, '\n') + 1 && b.lines >= 1
  {
    var code := Strip(f.body);
    SplitCharCount(code, '\n');
    CodeBlock(if f.tag == [] then DefaultLanguage else f.tag, code, |Split(code, "\n")|)
  }

  /** The stored code is the body with only surrounding whitespace cut off. */
  lemma BlockCodeIsTrimmedBody(f: Fence)
    ensures exists a: nat :: StrippedAt(f.body, ToBlock(f).code, a)
    ensures Contains(f.body, ToBlock(f).code)
  {
    assert ToBlock(f).code == Strip(f.body);
    StripContained(f.body);
  }

  /** `extract_code_blocks`: one record per fence with code, in source order. */
  function ExtractCodeBlocks(fences: seq<Fence>): (r: seq<CodeBlock>)
    ensures |r| <= |fences|
    ensures forall i | 0 <= i < |r| :: r[i].code != [] && r[i].lines >= 1
  {
    KeepMapMembers(fences, HasCode, ToBlock);
    KeepMap(fences, HasCode, ToBlock)
  }

  /** Every record is the record of a fence with code, and every fence with code has
      its record. */
  lemma CodeBlocksAreFenceRecords(fences: seq<Fence>)
    ensures forall b | b in ExtractCodeBlocks(fences) :: ImageOfKept(fences, HasCode, ToBlock, b)
    ensures forall j | 0 <= j < |fences| && HasCode(fences[j]) :: ToBlock(fences[j]) in ExtractCodeBlocks(fences)
  {
    KeepMapMembers(fences, HasCode, ToBlock);
  }

  /** Fences are handled independently and in source order. */
  lemma ExtractCodeBlocksAppend(a: seq<Fence>, b: seq<Fence>)
    ensures ExtractCodeBlocks(a + b) == ExtractCodeBlocks(a) + ExtractCodeBlocks(b)
  {
    KeepMapAppend(a, b, HasCode, ToBlock);
  }

  /** A fence is skipped exactly when its body is all whitespace. */
  lemma BlankBodiesSkipped(f: Fence)
    ensures !HasCode(f) <==> AllSpace(f.body)
    ensures ExtractCodeBlocks([f]) == if AllSpace(f.body) then [] else [ToBlock(f)]
  {
    assert !HasCode(f) <==> AllSpace(f.body) by {
      StripEmptyIffAllSpace(f.body);
    }
    assert KeepMap([f][1..], HasCode, ToBlock) == [] by {
      assert [f][1..] == [];
    }
  }
}
