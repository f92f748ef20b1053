/** `on_chat_resume`: rebuilding the session's `message_history` from a
    stored thread's steps, and how that reconstruction undoes the step
    derivation of `update_thread_in_db`. */
module Resume {
  import opened Wrappers
  import opened Seqs
  import opened Records
  import opened Derivation
  import opened Storage

  /** The turn restored from one step: one for a `user_message` or `assistant_message` step, none for any other tag. */
  function RestoredTurn(s: StepDict): (r: seq<Turn>)
    ensures |r| == (if s.stepType == Some(UserMessage) || s.stepType == Some(AssistantMessage) then 1 else 0)
    ensures s.stepType == Some(UserMessage) ==> r == [Turn(UserRole, s.output.GetOr(""), None)]
    ensures s.stepType == Some(AssistantMessage) ==> r == [Turn(AssistantRole, s.output.GetOr(""), None)]
  {
    if s.stepType == Some(UserMessage) then [Turn(UserRole, s.output.GetOr(""), None)]
    else if s.stepType == Some(AssistantMessage) then [Turn(AssistantRole, s.output.GetOr(""), None)]
    else []
  }

  /** The turns restored from a sequence of steps, in step order. */
  function Reconstruct(steps: seq<StepDict>): (r: seq<Turn>)
    ensures |r| <= |steps|
    ensures forall i :: 0 <= i < |r| ==> (r[i].role == UserRole || r[i].role == AssistantRole) && r[i].createdAt.None?
  {
    if steps == [] then [] else RestoredTurn(steps[0]) + Reconstruct(steps[1..])
  }

  /** Reconstruction works step by step: it distributes over concatenation. */
  lemma {:induction false} ReconstructAppend(a: seq<StepDict>, b: seq<StepDict>)
    ensures Reconstruct(a + b) == Reconstruct(a) + Reconstruct(b)
  {
    if a == [] {
      assert a + b == b;
    } else {
      assert (a + b)[0] == a[0];
      assert (a + b)[1..] == a[1..] + b;
      ReconstructAppend(a[1..], b);
    }
  }

  /** Restoring one more step appends that step's restored turn. */
  lemma ReconstructSnoc(steps: seq<StepDict>, k: nat)
    requires k < |steps|
    ensures Reconstruct(steps[..k + 1]) == Reconstruct(steps[..k]) + RestoredTurn(steps[k])
  {
    assert steps[..k + 1] == steps[..k] + [steps[k]];
    ReconstructAppend(steps[..k], [steps[k]]);
    assert Reconstruct([steps[k]]) == RestoredTurn(steps[k]) + Reconstruct([]);
  }

  /** `on_chat_resume`: the prior session history followed by one restored turn per tagged step. */
  method OnChatResume(thread: Thread, prior: seq<Turn>) returns (session: Session)
    ensures session.threadId == thread.id
    ensures session.history == prior + Reconstruct(thread.steps)
  {
    var history := prior;
    var steps := thread.steps;
    var k := 0;
    while k < |steps|
      invariant 0 <= k <= |steps|
      invariant history == prior + Reconstruct(steps[..k])
    {
      var message := steps[k];
      var msgType := message.stepType;
      if msgType == Some(UserMessage) {
        history := history + [Turn(UserRole, message.output.GetOr(""), None)];
      } else if msgType == Some(AssistantMessage) {
        history := history + [Turn(AssistantRole, message.output.GetOr(""), None)];
      }
      ReconstructSnoc(steps, k);
      k := k + 1;
    }
    assert steps[..k] == steps;
    session := Session(history, thread.id);
  }

  /** Every step carries one of the two tags the derivation writes. */
  predicate AllTagged(steps: seq<StepDict>) {
    forall i :: 0 <= i < |steps| ==> steps[i].stepType == Some(UserMessage) || steps[i].stepType == Some(AssistantMessage)
  }

  /** On tagged steps nothing is skipped: the i-th restored turn comes from the i-th step. */
  lemma {:induction false} ReconstructTagged(steps: seq<StepDict>)
    requires AllTagged(steps)
    ensures |Reconstruct(steps)| == |steps|
    ensures forall i :: 0 <= i < |steps| ==>
      Reconstruct(steps)[i] ==
        Turn(if steps[i].stepType == Some(UserMessage) then UserRole else AssistantRole, steps[i].output.GetOr(""), None)
  {
    if steps != [] {
      ReconstructTagged(steps[1..]);
      var r := Reconstruct(steps);
      assert r == RestoredTurn(steps[0]) + Reconstruct(steps[1..]);
      forall i | 1 <= i < |steps| ensures r[i] == Reconstruct(steps[1..])[i - 1] && steps[i] == steps[1..][i - 1] {
      }
    }
  }

  /** A turn's role and content without its timestamp. */
  function Bare(h: seq<Turn>): (r: seq<Turn>)
    ensures |r| == |h|
    ensures forall i :: 0 <= i < |h| ==> r[i] == Turn(h[i].role, h[i].content, None)
  {
    seq(|h|, i requires 0 <= i < |h| => Turn(h[i].role, h[i].content, None))
  }

  /** Resuming from the derived steps restores the zip-interleaved user/assistant
      turns, role and content, timestamps dropped. */
  lemma ResumeAfterDerive(t: Thread, h: seq<Turn>)
    ensures Reconstruct(AsLoaded(DerivedSteps(t, h))) == Bare(OrderedTurns(h))
  {
    var d := AsLoaded(DerivedSteps(t, h));
    var o := OrderedTurns(h);
    OrderedTurnsShape(h);
    assert AllTagged(d);
    ReconstructTagged(d);
    forall i | 0 <= i < |d| ensures Reconstruct(d)[i] == Bare(o)[i] {
      assert o[i].role == UserRole || o[i].role == AssistantRole;
    }
  }

  /** A history that already alternates user, assistant, ... and has even length
      comes back from storage-and-resume with the same roles and contents. */
  lemma ResumeRoundTrip(t: Thread, h: seq<Turn>)
    requires Alternating(h)
    ensures Reconstruct(AsLoaded(DerivedSteps(t, h))) == Bare(h)
  {
    ResumeAfterDerive(t, h);
    AlternatingIsOrdered(h);
  }
}
