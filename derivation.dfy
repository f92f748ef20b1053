/** How `update_thread_in_db` turns a thread's `message_history` into step
    records: user turns and assistant turns are separated, zipped pairwise
    (unmatched trailing turns and turns of any other role are dropped), and
    the i-th turn of the result becomes step `{thread id}-step-{i}`. */
module Derivation {
  import opened Wrappers
  import opened Seqs
  import opened Decimal
  import opened Records

  predicate IsUserTurn(t: Turn) {
    t.role == UserRole
  }

  predicate IsAssistantTurn(t: Turn) {
    t.role == AssistantRole
  }

  /** `[msg for msg in message_history if msg['role'] == 'user']` */
  function UserTurns(h: seq<Turn>): (r: seq<Turn>)
    ensures forall i :: 0 <= i < |r| ==> r[i].role == UserRole && r[i] in h
    ensures forall i :: 0 <= i < |h| && h[i].role == UserRole ==> h[i] in r
  {
    Filter(h, IsUserTurn)
  }

  /** `[msg for msg in message_history if msg['role'] == 'assistant']` */
  function AssistantTurns(h: seq<Turn>): (r: seq<Turn>)
    ensures forall i :: 0 <= i < |r| ==> r[i].role == AssistantRole && r[i] in h
    ensures forall i :: 0 <= i < |h| && h[i].role == AssistantRole ==> h[i] in r
  {
    Filter(h, IsAssistantTurn)
  }

  /** `ordered_steps`: the user and assistant turns zipped pairwise and flattened. */
  function OrderedTurns(h: seq<Turn>): (r: seq<Turn>)
    ensures |r| == 2 * Min(|UserTurns(h)|, |AssistantTurns(h)|)
    ensures forall i :: 0 <= i < |r| ==> r[i].role == (if i % 2 == 0 then UserRole else AssistantRole)
  {
    Interleave(UserTurns(h), AssistantTurns(h))
  }

  /** The number of complete user/assistant pairs in `h`. */
  function PairCount(h: seq<Turn>): nat {
    Min(|UserTurns(h)|, |AssistantTurns(h)|)
  }

  /** The id of the step at position `ordinal` of a thread's derived steps. */
  function StepId(threadId: string, ordinal: nat): string {
    threadId + "-step-" + NatToString(ordinal)
  }

  /** The step built for the turn at position `ordinal` (the body of the enumerate loop). */
  function StepFor(threadId: string, threadCreatedAt: string, ordinal: nat, turn: Turn): StepRecord {
    var isUser := turn.role == UserRole;
    StepRecord(
      StepId(threadId, ordinal),
      StepRow(
        threadId,
        if isUser then UserRole else AssistantRole,
        turn.createdAt.GetOr(threadCreatedAt),
        if isUser then UserMessage else AssistantMessage,
        turn.content))
  }

  /** The steps built for a sequence of already ordered turns, one per turn. */
  function StepsOf(threadId: string, threadCreatedAt: string, ordered: seq<Turn>): seq<StepRecord> {
    seq(|ordered|, i requires 0 <= i < |ordered| => StepFor(threadId, threadCreatedAt, i, ordered[i]))
  }

  /** All steps `update_thread_in_db` writes for thread `t` whose history is `h`. */
  function DerivedSteps(t: Thread, h: seq<Turn>): seq<StepRecord> {
    StepsOf(t.id, t.createdAt, OrderedTurns(h))
  }

  /** The enumerate loop of `update_thread_in_db`, appending one step per ordered turn. */
  method BuildSteps(threadId: string, threadCreatedAt: string, ordered: seq<Turn>) returns (steps: seq<StepRecord>)
    ensures steps == StepsOf(threadId, threadCreatedAt, ordered)
  {
    steps := [];
    var idx := 0;
    while idx < |ordered|
      invariant 0 <= idx <= |ordered|
      invariant |steps| == idx
      invariant forall k :: 0 <= k < idx ==> steps[k] == StepFor(threadId, threadCreatedAt, k, ordered[k])
    {
      var message := ordered[idx];
      var stepId := threadId + "-step-" + NatToString(idx);
      var stepType := if message.role == UserRole then UserMessage else AssistantMessage;
      var stepName := if message.role == UserRole then UserRole else AssistantRole;
      var createdAt := message.createdAt.GetOr(threadCreatedAt);
      steps := steps + [StepRecord(stepId, StepRow(threadId, stepName, createdAt, stepType, message.content))];
      idx := idx + 1;
    }
  }

  /** The ordered turns: 2·min(#user, #assistant) of them, the k-th user turn at
      position 2k and the k-th assistant turn at 2k+1; nothing else appears, and
      the unmatched trailing turns of the longer role are dropped. */
  lemma OrderedTurnsShape(h: seq<Turn>)
    ensures |OrderedTurns(h)| == 2 * PairCount(h)
    ensures forall i :: 0 <= i < |OrderedTurns(h)| ==>
      if i % 2 == 0
      then OrderedTurns(h)[i] == UserTurns(h)[i / 2] && OrderedTurns(h)[i].role == UserRole
      else OrderedTurns(h)[i] == AssistantTurns(h)[i / 2] && OrderedTurns(h)[i].role == AssistantRole
    ensures OrderedTurns(h) == Interleave(UserTurns(h)[..PairCount(h)], AssistantTurns(h)[..PairCount(h)])
  {
    InterleaveDropsTrailing(UserTurns(h), AssistantTurns(h));
  }

  /** Every derived step, position by position: its id, owner, tags, text and timestamp. */
  lemma DerivedStepsShape(t: Thread, h: seq<Turn>)
    ensures |DerivedSteps(t, h)| == 2 * PairCount(h)
    ensures forall i :: 0 <= i < |DerivedSteps(t, h)| ==>
      var s := DerivedSteps(t, h)[i];
      var turn := if i % 2 == 0 then UserTurns(h)[i / 2] else AssistantTurns(h)[i / 2];
      && s.id == StepId(t.id, i)
      && s.row.threadId == t.id
      && s.row.stepType == (if i % 2 == 0 then UserMessage else AssistantMessage)
      && s.row.name == (if i % 2 == 0 then UserRole else AssistantRole)
      && s.row.output == turn.content
      && s.row.createdAt == turn.createdAt.GetOr(t.createdAt)
  {
    OrderedTurnsShape(h);
  }

  /** Step ids never collide, not even across threads: the id determines both the thread and the ordinal. */
  lemma StepIdInjective(a: string, i: nat, b: string, j: nat)
    requires StepId(a, i) == StepId(b, j)
    ensures a == b && i == j
  {
    var s := StepId(a, i);
    var pa, pb := a + "-step-", b + "-step-";
    var di, dj := NatToString(i), NatToString(j);
    assert s == pa + di && s == pb + dj;
    DigitSuffixOfAppend(pa, di);
    DigitSuffixOfAppend(pb, dj);
    assert |di| == |dj|;
    assert di == s[|s| - |di|..] == dj;
    NatToStringInjective(i, j);
    assert pa == s[..|s| - |di|] == pb;
    assert a == pa[..|a|] && b == pb[..|b|];
  }

  /** The ids of one thread's derived steps are pairwise distinct. */
  lemma DerivedIdsDistinct(t: Thread, h: seq<Turn>)
    ensures forall i, j ::
      (0 <= i < |DerivedSteps(t, h)| && 0 <= j < |DerivedSteps(t, h)| &&
       DerivedSteps(t, h)[i].id == DerivedSteps(t, h)[j].id) ==> i == j
  {
    var d := DerivedSteps(t, h);
    forall i, j | 0 <= i < |d| && 0 <= j < |d| && d[i].id == d[j].id ensures i == j {
      StepIdInjective(t.id, i, t.id, j);
    }
  }

  /** The history already is user, assistant, user, assistant, ... of even length. */
  predicate Alternating(h: seq<Turn>)
    decreases |h|
  {
    h == [] || (|h| >= 2 && h[0].role == UserRole && h[1].role == AssistantRole && Alternating(h[2..]))
  }

  /** A leading user/assistant pair heads both partitions. */
  lemma PairHeadsPartitions(u: Turn, a: Turn, rest: seq<Turn>)
    requires u.role == UserRole && a.role == AssistantRole
    ensures UserTurns([u, a] + rest) == [u] + UserTurns(rest)
    ensures AssistantTurns([u, a] + rest) == [a] + AssistantTurns(rest)
  {
    var h := [u, a] + rest;
    assert h[0] == u && h[1..] == [a] + rest;
    assert ([a] + rest)[0] == a && ([a] + rest)[1..] == rest;
    assert Filter(h, IsUserTurn) == [u] + Filter([a] + rest, IsUserTurn);
    assert Filter([a] + rest, IsUserTurn) == Filter(rest, IsUserTurn);
    assert Filter(h, IsAssistantTurn) == Filter([a] + rest, IsAssistantTurn);
    assert Filter([a] + rest, IsAssistantTurn) == [a] + Filter(rest, IsAssistantTurn);
  }

  /** Zipping two lists with a head each puts the two heads first. */
  lemma InterleaveCons(x: Turn, y: Turn, xs: seq<Turn>, ys: seq<Turn>)
    ensures Interleave([x] + xs, [y] + ys) == [x, y] + Interleave(xs, ys)
  {
    assert ([x] + xs)[1..] == xs && ([y] + ys)[1..] == ys;
  }

  /** A leading user/assistant pair is kept, first, by the partition and zip. */
  lemma OrderedTurnsOfPair(u: Turn, a: Turn, rest: seq<Turn>)
    requires u.role == UserRole && a.role == AssistantRole
    ensures OrderedTurns([u, a] + rest) == [u, a] + OrderedTurns(rest)
  {
    PairHeadsPartitions(u, a, rest);
    InterleaveCons(u, a, UserTurns(rest), AssistantTurns(rest));
  }

  /** On an alternating history the partition and zip give the history back unchanged. */
  lemma {:induction false} AlternatingIsOrdered(h: seq<Turn>)
    requires Alternating(h)
    ensures OrderedTurns(h) == h
  {
    if h != [] {
      var rest := h[2..];
      AlternatingIsOrdered(rest);
      OrderedTurnsOfPair(h[0], h[1], rest);
      assert h == [h[0], h[1]] + rest;
    }
  }
}
