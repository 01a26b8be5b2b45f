/** Key concepts (learning_extractor.py, `extract_concepts`): the terms of a fixed
    vocabulary that the transcript mentions, ranked by how many sentences mention
    them, ten at most. The ranking is stated for any duplicate-free vocabulary and any
    way of turning a term into an optional record, and instantiated with the
    extractor's own vocabulary and presence test at the end. */
module Concepts {
  import opened Wrappers
  import opened Text
  import opened Unique

  datatype Concept = Concept(term: string, mentions: nat, example: string)

  /** The concept vocabulary, in the order the terms are tried. */
  const Vocabulary: seq<string> := [
    "AI agents", "context engineering", "MCP", "claude code",
    "bash tool", "CLI", "workflow", "automation", "framework",
    "integration", "token", "prompt", "agent", "tool"]

  const MaxConcepts: nat := 10

  lemma VocabularyIsDuplicateFree()
    ensures NoDups(Vocabulary)
  {
  }

  /** Position of the first `t` in `s`, or `|s|` when there is none. */
  function FirstIndex(s: seq<string>, t: string): (k: nat)
    ensures k <= |s| && (k < |s| <==> t in s)
    ensures k < |s| ==> s[k] == t
    ensures forall j | 0 <= j < k :: s[j] != t
  {
    if |s| == 0 then 0 else if s[0] == t then 0 else 1 + FirstIndex(s[1..], t)
  }

  /** Position of a term in the vocabulary; ties in mention count are broken by it. */
  function Rank(vocab: seq<string>, t: string): nat {
    FirstIndex(vocab, t)
  }

  /** In a vocabulary without repeats, a term's rank is its position. */
  lemma RankOfPosition(vocab: seq<string>, k: nat)
    requires NoDups(vocab) && k < |vocab|
    ensures Rank(vocab, vocab[k]) == k
  {
  }

  /** A term gives a record when the case-insensitive presence test passes and the
      sentence pattern finds at least one sentence for it. */
  predicate Qualifies(content: string, term: string, sentences: seq<string>) {
    Contains(Lower(content), Lower(term)) && |sentences| > 0
  }

  /** The record of one term: the sentence count and the first sentence, stripped. */
  function Record(term: string, sentences: seq<string>): (c: Concept)
    requires |sentences| > 0
    ensures c.term == term && c.mentions == |sentences| >= 1
  {
    Concept(term, |sentences|, Strip(sentences[0]))
  }

  /** What one term contributes to the extractor's list: its record when it
      qualifies, nothing otherwise. `sentencesOf(t)` is what the sentence pattern for
      `t` finds. */
  function Candidate(content: string, sentencesOf: string -> seq<string>, term: string): (r: Option<Concept>)
    ensures r.Some? <==> Contains(Lower(content), Lower(term)) && |sentencesOf(term)| > 0
    ensures r.Some? ==> r.value.term == term && r.value.mentions == |sentencesOf(term)|
    ensures r.Some? ==> r.value.example == Strip(sentencesOf(term)[0])
  {
    if Qualifies(content, term, sentencesOf(term)) then Some(Record(term, sentencesOf(term))) else None
  }

  /** Each record a candidate function gives is about the term asked for. */
  ghost predicate Labelled(cand: string -> Option<Concept>) {
    forall t :: cand(t).Some? ==> cand(t).value.term == t
  }

  predicate HasTerm(cs: seq<Concept>, t: string) {
    exists i | 0 <= i < |cs| :: cs[i].term == t
  }

  predicate InVocabulary(vocab: seq<string>, cs: seq<Concept>) {
    forall i | 0 <= i < |cs| :: cs[i].term in vocab
  }

  /** Terms appear in vocabulary order. */
  predicate RankIncreasing(vocab: seq<string>, cs: seq<Concept>) {
    forall i, j | 0 <= i < j < |cs| :: Rank(vocab, cs[i].term) < Rank(vocab, cs[j].term)
  }

  /** `a` is listed before `b`: more mentions, or as many and earlier in the vocabulary. */
  predicate RankedBefore(vocab: seq<string>, a: Concept, b: Concept) {
    a.mentions > b.mentions || (a.mentions == b.mentions && Rank(vocab, a.term) < Rank(vocab, b.term))
  }

  /** Every record is the one its term's candidate gives. */
  predicate FromCandidates(cand: string -> Option<Concept>, cs: seq<Concept>) {
    forall i | 0 <= i < |cs| :: cand(cs[i].term) == Some(cs[i])
  }

  /** `r` holds one record per term that has one from position `k` of the vocabulary
      on, in vocabulary order, each the record its term's candidate gives. */
  predicate CollectedFrom(vocab: seq<string>, cand: string -> Option<Concept>, k: nat, r: seq<Concept>) {
    InVocabulary(vocab, r) && FromCandidates(cand, r) &&
    (forall i | 0 <= i < |r| :: Rank(vocab, r[i].term) >= k) &&
    RankIncreasing(vocab, r) &&
    (forall j | k <= j < |vocab| :: HasTerm(r, vocab[j]) <==> cand(vocab[j]).Some?)
  }

  /** The loop over the vocabulary from position `k` on. */
  function CollectFrom(vocab: seq<string>, cand: string -> Option<Concept>, k: nat): (r: seq<Concept>)
    requires NoDups(vocab) && Labelled(cand) && k <= |vocab|
    ensures CollectedFrom(vocab, cand, k, r)
    decreases |vocab| - k
  {
    if k == |vocab| then []
    else
      var rest := CollectFrom(vocab, cand, k + 1);
      match cand(vocab[k])
      case Some(c) =>
        CollectSome(vocab, cand, k, rest, c);
        [c] + rest
      case None =>
        CollectNone(vocab, cand, k, rest);
        rest
  }

  /** A term with a record goes in front of the records of later terms. */
  lemma CollectSome(vocab: seq<string>, cand: string -> Option<Concept>, k: nat, rest: seq<Concept>, c: Concept)
    requires NoDups(vocab) && Labelled(cand) && k < |vocab| && cand(vocab[k]) == Some(c)
    requires CollectedFrom(vocab, cand, k + 1, rest)
    ensures CollectedFrom(vocab, cand, k, [c] + rest)
  {
    var r := [c] + rest;
    RankOfPosition(vocab, k);
    CollectStep(vocab, k, rest, r);
    assert InVocabulary(vocab, r) && FromCandidates(cand, r);
  }

  /** A term without a record adds nothing. */
  lemma CollectNone(vocab: seq<string>, cand: string -> Option<Concept>, k: nat, rest: seq<Concept>)
    requires NoDups(vocab) && k < |vocab| && cand(vocab[k]).None?
    requires CollectedFrom(vocab, cand, k + 1, rest)
    ensures CollectedFrom(vocab, cand, k, rest)
  {
    CollectSkip(vocab, k, rest);
  }

  /** Records of later terms have none for the term at position `k`. */
  lemma CollectSkip(vocab: seq<string>, k: nat, rest: seq<Concept>)
    requires NoDups(vocab) && k < |vocab|
    requires forall i | 0 <= i < |rest| :: Rank(vocab, rest[i].term) > k
    ensures !HasTerm(rest, vocab[k])
  {
    RankOfPosition(vocab, k);
  }

  /** Putting the record of the term at position `k` in front of the records of later
      terms keeps ranks increasing and adds exactly that term. */
  lemma CollectStep(vocab: seq<string>, k: nat, rest: seq<Concept>, r: seq<Concept>)
    requires NoDups(vocab) && k < |vocab| && Rank(vocab, vocab[k]) == k
    requires forall i | 0 <= i < |rest| :: Rank(vocab, rest[i].term) > k
    requires |r| == |rest| + 1 && r[0].term == vocab[k] && r[1..] == rest
    ensures forall i | 0 < i < |r| :: r[i] == rest[i - 1]
    ensures forall j | 0 < j < |r| :: Rank(vocab, r[0].term) < Rank(vocab, r[j].term)
    ensures HasTerm(r, vocab[k])
    ensures forall j | k < j < |vocab| :: HasTerm(r, vocab[j]) <==> HasTerm(rest, vocab[j])
  {
    assert forall j | 0 < j < |r| :: r[j] == rest[j - 1];
    forall j | k < j < |vocab| ensures HasTerm(r, vocab[j]) <==> HasTerm(rest, vocab[j]) {
      if HasTerm(r, vocab[j]) {
        var i :| 0 <= i < |r| && r[i].term == vocab[j];
        RankOfPosition(vocab, j);
        assert i > 0;
        assert rest[i - 1].term == vocab[j];
      }
      if HasTerm(rest, vocab[j]) {
        var i :| 0 <= i < |rest| && rest[i].term == vocab[j];
        assert r[i + 1].term == vocab[j];
      }
    }
  }

  /** No mention count increases along the list. */
  predicate NonIncreasing(cs: seq<Concept>) {
    forall i, j | 0 <= i < j < |cs| :: cs[i].mentions >= cs[j].mentions
  }

  /** The records with exactly `m` mentions, in list order. */
  function WithMentions(cs: seq<Concept>, m: nat): (r: seq<Concept>)
    ensures forall c :: c in r <==> c in cs && c.mentions == m
  {
    if |cs| == 0 then []
    else (if cs[0].mentions == m then [cs[0]] else []) + WithMentions(cs[1..], m)
  }

  lemma WithMentionsCons(c: Concept, cs: seq<Concept>, m: nat)
    ensures WithMentions([c] + cs, m) == (if c.mentions == m then [c] else []) + WithMentions(cs, m)
  {
    assert ([c] + cs)[1..] == cs;
  }

  /** Inserts `c` into a ranked list after every record with more mentions and before
      the first with as many or fewer. */
  function Insert(c: Concept, cs: seq<Concept>): (r: seq<Concept>)
    requires NonIncreasing(cs)
    ensures NonIncreasing(r)
    ensures multiset(r) == multiset(cs) + multiset{c}
  {
    if |cs| == 0 || cs[0].mentions <= c.mentions then [c] + cs
    else
      var rest := Insert(c, cs[1..]);
      assert cs == [cs[0]] + cs[1..];
      InsertHeadBound(c, cs, rest);
      [cs[0]] + rest
  }

  /** Inserting puts `c` in front of the records with as many mentions and leaves
      every other count's records alone. */
  lemma {:induction false} InsertWithMentions(c: Concept, cs: seq<Concept>, m: nat)
    requires NonIncreasing(cs)
    ensures WithMentions(Insert(c, cs), m) == if c.mentions == m then [c] + WithMentions(cs, m) else WithMentions(cs, m)
    decreases |cs|
  {
    if |cs| == 0 || cs[0].mentions <= c.mentions {
      WithMentionsCons(c, cs, m);
    } else {
      var rest := Insert(c, cs[1..]);
      InsertWithMentions(c, cs[1..], m);
      WithMentionsCons(cs[0], rest, m);
      WithMentionsCons(cs[0], cs[1..], m);
      assert cs == [cs[0]] + cs[1..];
    }
  }

  /** The head of a ranked list stays at the head when a record with fewer mentions
      is inserted behind it. */
  lemma InsertHeadBound(c: Concept, cs: seq<Concept>, rest: seq<Concept>)
    requires |cs| > 0 && NonIncreasing(cs) && cs[0].mentions > c.mentions
    requires NonIncreasing(rest) && multiset(rest) == multiset(cs[1..]) + multiset{c}
    ensures NonIncreasing([cs[0]] + rest)
  {
    var r := [cs[0]] + rest;
    forall j | 0 < j < |r| ensures r[0].mentions >= r[j].mentions {
      var x := rest[j - 1];
      assert x in multiset(rest);
      if x != c {
        assert x in multiset(cs[1..]);
        var k :| 0 <= k < |cs[1..]| && cs[1..][k] == x;
        assert cs[k + 1] == x;
      }
    }
    forall i, j | 0 < i < j < |r| ensures r[i].mentions >= r[j].mentions {
      assert r[i] == rest[i - 1] && r[j] == rest[j - 1];
    }
  }

  /** Python's `sorted(key=mentions, reverse=True)`: most mentioned first, a
      permutation of the input. */
  function SortByMentions(cs: seq<Concept>): (r: seq<Concept>)
    ensures NonIncreasing(r)
    ensures multiset(r) == multiset(cs)
  {
    if |cs| == 0 then []
    else
      assert cs == [cs[0]] + cs[1..];
      Insert(cs[0], SortByMentions(cs[1..]))
  }

  /** The sort is stable: the records with any one count keep their input order. */
  lemma {:induction false} SortStable(cs: seq<Concept>, m: nat)
    ensures WithMentions(SortByMentions(cs), m) == WithMentions(cs, m)
    decreases |cs|
  {
    if |cs| > 0 {
      SortStable(cs[1..], m);
      InsertWithMentions(cs[0], SortByMentions(cs[1..]), m);
      WithMentionsCons(cs[0], cs[1..], m);
      assert cs == [cs[0]] + cs[1..];
    }
  }

  /** A record ranked before every record of a vocabulary-ordered list can go in front. */
  lemma RankIncreasingCons(vocab: seq<string>, c: Concept, w: seq<Concept>)
    requires RankIncreasing(vocab, w)
    requires forall j | 0 <= j < |w| :: Rank(vocab, c.term) < Rank(vocab, w[j].term)
    ensures RankIncreasing(vocab, [c] + w)
  {
    var r := [c] + w;
    assert forall j | 0 < j < |r| :: r[j] == w[j - 1];
  }

  /** A rank bound every record of a list meets is met by the records it picks out. */
  lemma {:induction false} WithMentionsRankBound(vocab: seq<string>, cs: seq<Concept>, m: nat, bound: nat)
    requires forall i | 0 <= i < |cs| :: Rank(vocab, cs[i].term) > bound
    ensures forall i | 0 <= i < |WithMentions(cs, m)| :: Rank(vocab, WithMentions(cs, m)[i].term) > bound
    decreases |cs|
  {
    if |cs| > 0 {
      WithMentionsRankBound(vocab, cs[1..], m, bound);
      WithMentionsCons(cs[0], cs[1..], m);
      assert cs == [cs[0]] + cs[1..];
    }
  }

  /** Picking out the records with a given count keeps vocabulary order. */
  lemma {:induction false} RankIncreasingWithMentions(vocab: seq<string>, cs: seq<Concept>, m: nat)
    requires RankIncreasing(vocab, cs)
    ensures RankIncreasing(vocab, WithMentions(cs, m))
    decreases |cs|
  {
    if |cs| > 0 {
      var c := cs[0];
      var tail := cs[1..];
      assert forall i | 0 <= i < |tail| :: tail[i] == cs[i + 1];
      RankIncreasingWithMentions(vocab, tail, m);
      assert cs == [c] + tail;
      WithMentionsCons(c, tail, m);
      if c.mentions == m {
        WithMentionsRankBound(vocab, tail, m, Rank(vocab, c.term));
        RankIncreasingCons(vocab, c, WithMentions(tail, m));
      }
    }
  }

  /** A suffix of a vocabulary-ordered list is vocabulary-ordered. */
  lemma RankIncreasingSuffix(vocab: seq<string>, a: seq<Concept>, b: seq<Concept>)
    requires RankIncreasing(vocab, a + b)
    ensures RankIncreasing(vocab, b)
  {
    assert forall i | 0 <= i < |b| :: b[i] == (a + b)[|a| + i];
  }

  /** The first record, when it has `m` mentions, precedes in the vocabulary every
      later record with `m` mentions. */
  lemma TiesHead(vocab: seq<string>, cs: seq<Concept>, m: nat)
    requires |cs| > 0 && cs[0].mentions == m
    requires RankIncreasing(vocab, WithMentions(cs, m))
    ensures forall j | 0 < j < |cs| && cs[j].mentions == m :: Rank(vocab, cs[0].term) < Rank(vocab, cs[j].term)
  {
    var tail := cs[1..];
    var w := WithMentions(tail, m);
    var all := WithMentions(cs, m);
    assert all == [cs[0]] + w;
    forall j | 0 < j < |cs| && cs[j].mentions == m ensures Rank(vocab, cs[0].term) < Rank(vocab, cs[j].term) {
      assert cs[j] == tail[j - 1];
      assert cs[j] in w;
      var p :| 0 <= p < |w| && w[p] == cs[j];
      assert all[0] == cs[0] && all[p + 1] == cs[j];
    }
  }

  /** If the records with `m` mentions are in vocabulary order as picked out, then any
      two of them are in vocabulary order in the whole list. */
  lemma {:induction false} TiesFollowVocabulary(vocab: seq<string>, cs: seq<Concept>, m: nat)
    requires RankIncreasing(vocab, WithMentions(cs, m))
    ensures forall i, j | 0 <= i < j < |cs| && cs[i].mentions == m && cs[j].mentions == m ::
      Rank(vocab, cs[i].term) < Rank(vocab, cs[j].term)
    decreases |cs|
  {
    if |cs| > 0 {
      var tail := cs[1..];
      var head := if cs[0].mentions == m then [cs[0]] else [];
      assert WithMentions(cs, m) == head + WithMentions(tail, m);
      RankIncreasingSuffix(vocab, head, WithMentions(tail, m));
      TiesFollowVocabulary(vocab, tail, m);
      if cs[0].mentions == m {
        TiesHead(vocab, cs, m);
      }
      forall i, j | 0 < i < j < |cs| && cs[i].mentions == m && cs[j].mentions == m
        ensures Rank(vocab, cs[i].term) < Rank(vocab, cs[j].term)
      {
        assert cs[i] == tail[i - 1] && cs[j] == tail[j - 1];
      }
    }
  }

  /** A permutation of a list keeps its vocabulary membership and candidate origin. */
  lemma PermutationKeepsRecords(vocab: seq<string>, cand: string -> Option<Concept>, a: seq<Concept>, b: seq<Concept>)
    requires multiset(a) == multiset(b)
    requires InVocabulary(vocab, a) && FromCandidates(cand, a)
    ensures InVocabulary(vocab, b) && FromCandidates(cand, b)
  {
    forall i | 0 <= i < |b| ensures b[i].term in vocab && cand(b[i].term) == Some(b[i]) {
      assert b[i] in multiset(a);
      var p :| 0 <= p < |a| && a[p] == b[i];
    }
  }

  /** Every term the collected list has, the sorted list has too. */
  lemma PermutationKeepsTerms(a: seq<Concept>, b: seq<Concept>, t: string)
    requires multiset(a) == multiset(b)
    requires HasTerm(a, t)
    ensures HasTerm(b, t)
  {
    var p :| 0 <= p < |a| && a[p].term == t;
    assert a[p] in multiset(b);
    var q :| 0 <= q < |b| && b[q] == a[p];
  }

  /** A list sorted by mentions whose ties keep vocabulary order is ranked. */
  lemma SortedIsRanked(vocab: seq<string>, collected: seq<Concept>, sorted: seq<Concept>)
    requires RankIncreasing(vocab, collected)
    requires sorted == SortByMentions(collected)
    ensures forall i, j | 0 <= i < j < |sorted| :: RankedBefore(vocab, sorted[i], sorted[j])
  {
    forall i, j | 0 <= i < j < |sorted| ensures RankedBefore(vocab, sorted[i], sorted[j]) {
      var m := sorted[i].mentions;
      if sorted[j].mentions == m {
        SortStable(collected, m);
        RankIncreasingWithMentions(vocab, collected, m);
        TiesFollowVocabulary(vocab, sorted, m);
      }
    }
  }

  /** Collects, sorts and keeps the top ten. At most ten records, each the record its
      term's candidate gives; most mentioned first and ties in vocabulary order (so no
      term twice); and a term with a record is left out only when ten records ranked
      before it fill the list, so among equally mentioned terms the later ones go. */
  function RankConcepts(vocab: seq<string>, cand: string -> Option<Concept>): (r: seq<Concept>)
    requires NoDups(vocab) && Labelled(cand)
    ensures |r| <= MaxConcepts
    ensures InVocabulary(vocab, r) && FromCandidates(cand, r)
    ensures forall i, j | 0 <= i < j < |r| :: RankedBefore(vocab, r[i], r[j])
    ensures forall k | 0 <= k < |vocab| && cand(vocab[k]).Some? && !HasTerm(r, vocab[k]) ::
      |r| == MaxConcepts && forall i | 0 <= i < |r| :: RankedBefore(vocab, r[i], cand(vocab[k]).value)
  {
    var collected := CollectFrom(vocab, cand, 0);
    var sorted := SortByMentions(collected);
    PermutationKeepsRecords(vocab, cand, collected, sorted);
    SortedIsRanked(vocab, collected, sorted);
    var r := Take(sorted, MaxConcepts);
    TopTen(vocab, cand, collected, sorted, r);
    r
  }

  /** The cut to ten only drops a term with a record when ten records ranked before it
      are kept. */
  lemma TopTen(vocab: seq<string>, cand: string -> Option<Concept>, collected: seq<Concept>, sorted: seq<Concept>, r: seq<Concept>)
    requires NoDups(vocab) && Labelled(cand)
    requires collected == CollectFrom(vocab, cand, 0)
    requires multiset(sorted) == multiset(collected) && NonIncreasing(sorted)
    requires FromCandidates(cand, sorted)
    requires forall i, j | 0 <= i < j < |sorted| :: RankedBefore(vocab, sorted[i], sorted[j])
    requires r == Take(sorted, MaxConcepts)
    ensures forall k | 0 <= k < |vocab| && cand(vocab[k]).Some? && !HasTerm(r, vocab[k]) ::
      |r| == MaxConcepts && forall i | 0 <= i < |r| :: RankedBefore(vocab, r[i], cand(vocab[k]).value)
  {
    assert forall i | 0 <= i < |r| :: r[i] == sorted[i];
    forall k | 0 <= k < |vocab| && cand(vocab[k]).Some? && !HasTerm(r, vocab[k])
      ensures |r| == MaxConcepts && forall i | 0 <= i < |r| :: RankedBefore(vocab, r[i], cand(vocab[k]).value)
    {
      PermutationKeepsTerms(collected, sorted, vocab[k]);
      var q :| 0 <= q < |sorted| && sorted[q].term == vocab[k];
      assert forall i | 0 <= i < |r| :: sorted[i].term != vocab[k];
      assert q >= |r|;
      assert cand(vocab[k]) == Some(sorted[q]);
    }
  }

  /** Every record is the record of a qualifying term. */
  predicate Faithful(content: string, sentencesOf: string -> seq<string>, cs: seq<Concept>) {
    forall i | 0 <= i < |cs| ::
      Qualifies(content, cs[i].term, sentencesOf(cs[i].term)) &&
      cs[i] == Record(cs[i].term, sentencesOf(cs[i].term))
  }

  lemma CandidatesLabelled(content: string, sentencesOf: string -> seq<string>)
    ensures Labelled(t => Candidate(content, sentencesOf, t))
  {
  }

  /** Records taken from the extractor's candidates are records of qualifying terms. */
  lemma CandidatesFaithful(content: string, sentencesOf: string -> seq<string>, r: seq<Concept>)
    requires FromCandidates(t => Candidate(content, sentencesOf, t), r)
    ensures Faithful(content, sentencesOf, r)
  {
    forall i | 0 <= i < |r|
      ensures Qualifies(content, r[i].term, sentencesOf(r[i].term))
      ensures r[i] == Record(r[i].term, sentencesOf(r[i].term))
    {
      assert Candidate(content, sentencesOf, r[i].term) == Some(r[i]);
    }
  }

  /** The top-ten guarantee over the extractor's candidates, read in terms of
      qualifying terms and their sentence counts. */
  lemma TopTenQualified(content: string, sentencesOf: string -> seq<string>, cand: string -> Option<Concept>, vocab: seq<string>, r: seq<Concept>)
    requires forall t :: cand(t) == Candidate(content, sentencesOf, t)
    requires forall k | 0 <= k < |vocab| && cand(vocab[k]).Some? && !HasTerm(r, vocab[k]) ::
      |r| == MaxConcepts && forall i | 0 <= i < |r| :: RankedBefore(vocab, r[i], cand(vocab[k]).value)
    ensures forall k | 0 <= k < |vocab| && Qualifies(content, vocab[k], sentencesOf(vocab[k])) && !HasTerm(r, vocab[k]) ::
      |r| == MaxConcepts && forall i | 0 <= i < |r| :: RankedBefore(vocab, r[i], Record(vocab[k], sentencesOf(vocab[k])))
  {
    forall k | 0 <= k < |vocab| && Qualifies(content, vocab[k], sentencesOf(vocab[k])) && !HasTerm(r, vocab[k])
      ensures |r| == MaxConcepts && forall i | 0 <= i < |r| :: RankedBefore(vocab, r[i], Record(vocab[k], sentencesOf(vocab[k])))
    {
      assert cand(vocab[k]) == Some(Record(vocab[k], sentencesOf(vocab[k])));
    }
  }

  /** The extraction over any duplicate-free vocabulary: at most ten records, each the
      record of a qualifying term, ranked, and a qualifying term missing only when ten
      records ranked before its own record fill the list. */
  function ConceptsOver(vocab: seq<string>, content: string, sentencesOf: string -> seq<string>): (r: seq<Concept>)
    requires NoDups(vocab)
    ensures |r| <= MaxConcepts
    ensures InVocabulary(vocab, r) && Faithful(content, sentencesOf, r)
    ensures forall i, j | 0 <= i < j < |r| :: RankedBefore(vocab, r[i], r[j])
    ensures forall k | 0 <= k < |vocab| && Qualifies(content, vocab[k], sentencesOf(vocab[k])) && !HasTerm(r, vocab[k]) ::
      |r| == MaxConcepts && forall i | 0 <= i < |r| :: RankedBefore(vocab, r[i], Record(vocab[k], sentencesOf(vocab[k])))
  {
    var cand := t => Candidate(content, sentencesOf, t);
    CandidatesLabelled(content, sentencesOf);
    var r := RankConcepts(vocab, cand);
    CandidatesFaithful(content, sentencesOf, r);
    TopTenQualified(content, sentencesOf, cand, vocab, r);
    r
  }

  /** `extract_concepts`: the extraction over the extractor's own vocabulary. */
  function ExtractConcepts(content: string, sentencesOf: string -> seq<string>): (r: seq<Concept>)
    ensures |r| <= MaxConcepts
    ensures InVocabulary(Vocabulary, r) && Faithful(content, sentencesOf, r)
    ensures forall i, j | 0 <= i < j < |r| :: RankedBefore(Vocabulary, r[i], r[j])
    ensures forall k | 0 <= k < |Vocabulary| && Qualifies(content, Vocabulary[k], sentencesOf(Vocabulary[k])) && !HasTerm(r, Vocabulary[k]) ::
      |r| == MaxConcepts && forall i | 0 <= i < |r| :: RankedBefore(Vocabulary, r[i], Record(Vocabulary[k], sentencesOf(Vocabulary[k])))
  {
    VocabularyIsDuplicateFree();
    ConceptsOver(Vocabulary, content, sentencesOf)
  }
}
