/** The request chain of `translate` (`recursiveTranslation`): slice `ind + 1` is
    requested only from the handler of slice `ind`'s response. The remote service is
    replaced by the given sequence of replies, `replies[ind]` answering request `ind`;
    when fewer replies are given than the chain needs, the chain is left waiting. */
module BatchChain {
  import opened Wrappers
  import opened Batching

  /** Which of the two near-identical pages runs the pipeline: `src/pages/Home.js`
      (current) or `src/Translator.js` (older). */
  datatype Copy = Home | Translator

  /** One entry of `data.translations` in a reply. */
  datatype Translation = Translation(text: string, detected: string)

  /** A reply reaching the `.then` handler, with `data.translations` when it is an array
      and `error.message` (empty when absent), or a rejection reaching `.catch`. */
  datatype Reply =
    | Body(translations: Option<seq<Translation>>, message: string)
    | Threw(message: string)
  {
    predicate HasArray() {
      Body? && translations.Some?
    }
  }

  /** Waiting for a reply, stopped by an error, or finished after the last slice. */
  datatype Ending = Waiting | Stopped | Finished

  /** What the chain has done so far: the slices requested in order, the translations
      gathered (`finalTranslatedArray`), the error shown, and how it ended. */
  datatype Run = Run(requests: seq<seq<string>>, results: seq<Translation>, error: Option<string>, ending: Ending)

  const DefaultError: string := "Translation error, try again"

  /** The error recorded for a reply without a translation array. */
  function FailureText(copy: Copy, message: string): (t: string)
    ensures t != ""
    ensures t == message || t == DefaultError
    ensures copy == Home && message != "" ==> t == message
  {
    match copy
    case Home => if message != "" then message else DefaultError
    case Translator => DefaultError
  }

  /** The translations of the replies that carried an array, in order. */
  function Gathered(replies: seq<Reply>): seq<Translation>
    decreases |replies|
  {
    if replies == [] then []
    else
      var last := replies[|replies| - 1];
      Gathered(replies[..|replies| - 1]) + (if last.HasArray() then last.translations.value else [])
  }

  /** The chain as written, once request `ind` has been sent. A reply without an array
      records an error and the chain goes on; a rejection stops it for good; the chain
      finishes only at the reply for slice `Parts(|ts|) - 1`. */
  function Continue(copy: Copy, ts: seq<string>, replies: seq<Reply>, ind: nat, run: Run): (r: Run)
    requires ind <= |replies|
    requires |run.requests| == ind + 1
    ensures |run.requests| <= |r.requests| <= |replies| + 1
    ensures r.requests[..|run.requests|] == run.requests
    ensures forall j :: |run.requests| <= j < |r.requests| ==> r.requests[j] == Batch(ts, j)
    decreases |replies| - ind
  {
    if ind == |replies| then run.(ending := Waiting)
    else
      var reply := replies[ind];
      if reply.Threw? then run.(error := Some(reply.message), ending := Stopped)
      else if ind == Parts(|ts|) - 1 then Handle(copy, reply, run).(ending := Finished)
      else Continue(copy, ts, replies, ind + 1, Next(copy, ts, reply, ind, run))
  }

  /** The `.then` handler's bookkeeping: append the array, or record the error. */
  function Handle(copy: Copy, reply: Reply, run: Run): (r: Run)
    requires reply.Body?
    ensures r.requests == run.requests && r.ending == run.ending
    ensures reply.translations.Some? ==> r.results == run.results + reply.translations.value && r.error == run.error
    ensures reply.translations.None? ==> r.results == run.results && r.error == Some(FailureText(copy, reply.message))
  {
    if reply.translations.Some? then run.(results := run.results + reply.translations.value)
    else run.(error := Some(FailureText(copy, reply.message)))
  }

  /** The run once the reply to request `ind` is handled and request `ind + 1` is sent. */
  function Next(copy: Copy, ts: seq<string>, reply: Reply, ind: nat, run: Run): (r: Run)
    requires reply.Body?
    ensures r.requests == run.requests + [Batch(ts, ind + 1)]
    ensures r.results == Handle(copy, reply, run).results && r.ending == run.ending
  {
    var handled := Handle(copy, reply, run);
    handled.(requests := handled.requests + [Batch(ts, ind + 1)])
  }

  /** A handled reply that is not for the last slice sends the next request. */
  lemma ContinueStep(copy: Copy, ts: seq<string>, replies: seq<Reply>, ind: nat, run: Run)
    requires ind < |replies| && replies[ind].Body? && ind != Parts(|ts|) - 1
    requires |run.requests| == ind + 1
    ensures Continue(copy, ts, replies, ind, run) == Continue(copy, ts, replies, ind + 1, Next(copy, ts, replies[ind], ind, run))
  {
  }

  /** Each further request of a chain that has sent `ind + 1` follows a reply that was
      handled and was not for the last slice. */
  lemma {:induction false} ContinueSends(copy: Copy, ts: seq<string>, replies: seq<Reply>, ind: nat, run: Run)
    requires ind <= |replies|
    requires |run.requests| == ind + 1
    requires forall j: nat :: j < ind ==> replies[j].Body?
    requires Parts(|ts|) == 0 || ind < Parts(|ts|)
    ensures var r := Continue(copy, ts, replies, ind, run);
      && (forall j: nat :: j < |r.requests| - 1 ==> replies[j].Body?)
      && (Parts(|ts|) == 0 || |r.requests| <= Parts(|ts|))
    decreases |replies| - ind
  {
    if ind < |replies| && replies[ind].Body? && ind != Parts(|ts|) - 1 {
      ContinueStep(copy, ts, replies, ind, run);
      ContinueSends(copy, ts, replies, ind + 1, Next(copy, ts, replies[ind], ind, run));
    }
  }

  /** The chain waits exactly when it has run out of replies, stops at a rejection and
      finishes at the reply to the last slice. */
  lemma ContinueEnds(copy: Copy, ts: seq<string>, replies: seq<Reply>, ind: nat, run: Run)
    requires ind <= |replies|
    requires |run.requests| == ind + 1
    requires Parts(|ts|) == 0 || ind < Parts(|ts|)
    ensures var r := Continue(copy, ts, replies, ind, run);
      && (r.ending == Waiting <==> |r.requests| == |replies| + 1)
      && (r.ending == Stopped <==> |r.requests| <= |replies| && replies[|r.requests| - 1].Threw?)
      && (r.ending == Finished <==>
            |r.requests| <= |replies| && replies[|r.requests| - 1].Body? && |r.requests| == Parts(|ts|))
  {
    ContinueWaits(copy, ts, replies, ind, run);
    ContinueStops(copy, ts, replies, ind, run);
    ContinueFinishes(copy, ts, replies, ind, run);
  }

  lemma {:induction false} ContinueWaits(copy: Copy, ts: seq<string>, replies: seq<Reply>, ind: nat, run: Run)
    requires ind <= |replies|
    requires |run.requests| == ind + 1
    requires Parts(|ts|) == 0 || ind < Parts(|ts|)
    ensures var r := Continue(copy, ts, replies, ind, run);
      r.ending == Waiting <==> |r.requests| == |replies| + 1
    decreases |replies| - ind
  {
    if ind < |replies| && replies[ind].Body? && ind != Parts(|ts|) - 1 {
      ContinueStep(copy, ts, replies, ind, run);
      ContinueWaits(copy, ts, replies, ind + 1, Next(copy, ts, replies[ind], ind, run));
    }
  }

  lemma {:induction false} ContinueStops(copy: Copy, ts: seq<string>, replies: seq<Reply>, ind: nat, run: Run)
    requires ind <= |replies|
    requires |run.requests| == ind + 1
    requires Parts(|ts|) == 0 || ind < Parts(|ts|)
    ensures var r := Continue(copy, ts, replies, ind, run);
      r.ending == Stopped <==> |r.requests| <= |replies| && replies[|r.requests| - 1].Threw?
    decreases |replies| - ind
  {
    if ind < |replies| && replies[ind].Body? && ind != Parts(|ts|) - 1 {
      ContinueStep(copy, ts, replies, ind, run);
      ContinueStops(copy, ts, replies, ind + 1, Next(copy, ts, replies[ind], ind, run));
    }
  }

  lemma {:induction false} ContinueFinishes(copy: Copy, ts: seq<string>, replies: seq<Reply>, ind: nat, run: Run)
    requires ind <= |replies|
    requires |run.requests| == ind + 1
    requires Parts(|ts|) == 0 || ind < Parts(|ts|)
    ensures var r := Continue(copy, ts, replies, ind, run);
      r.ending == Finished <==> |r.requests| <= |replies| && replies[|r.requests| - 1].Body? && |r.requests| == Parts(|ts|)
    decreases |replies| - ind
  {
    if ind < |replies| && replies[ind].Body? && ind != Parts(|ts|) - 1 {
      ContinueStep(copy, ts, replies, ind, run);
      ContinueFinishes(copy, ts, replies, ind + 1, Next(copy, ts, replies[ind], ind, run));
    }
  }

  /** The translations gathered are the arrays of the replies the chain has handled,
      in request order. */
  lemma {:induction false} ContinueGathers(copy: Copy, ts: seq<string>, replies: seq<Reply>, ind: nat, run: Run)
    requires ind <= |replies|
    requires |run.requests| == ind + 1
    requires run.results == Gathered(replies[..ind])
    ensures var r := Continue(copy, ts, replies, ind, run);
      r.results == Gathered(replies[..Min(|r.requests|, |replies|)])
    decreases |replies| - ind
  {
    if ind < |replies| {
      var reply := replies[ind];
      assert replies[..ind + 1][..ind] == replies[..ind];
      if reply.Body? {
        assert Handle(copy, reply, run).results == Gathered(replies[..ind + 1]);
        if ind != Parts(|ts|) - 1 {
          ContinueStep(copy, ts, replies, ind, run);
          ContinueGathers(copy, ts, replies, ind + 1, Next(copy, ts, reply, ind, run));
        }
      }
    }
  }

  /** `recursiveTranslation(0)`. */
  function RunChain(copy: Copy, ts: seq<string>, replies: seq<Reply>): (r: Run)
    ensures 1 <= |r.requests| <= |replies| + 1
    ensures forall j :: 0 <= j < |r.requests| ==> r.requests[j] == Batch(ts, j)
    ensures forall j: nat :: j < |r.requests| - 1 ==> replies[j].Body?
    ensures Parts(|ts|) == 0 || |r.requests| <= Parts(|ts|)
    ensures r.results == Gathered(replies[..Min(|r.requests|, |replies|)])
    ensures r.ending == Waiting <==> |r.requests| == |replies| + 1
    ensures r.ending == Stopped <==> |r.requests| <= |replies| && replies[|r.requests| - 1].Threw?
    ensures r.ending == Finished <==>
      |r.requests| <= |replies| && replies[|r.requests| - 1].Body? && |r.requests| == Parts(|ts|)
  {
    ContinueSends(copy, ts, replies, 0, Run([Batch(ts, 0)], [], None, Waiting));
    ContinueEnds(copy, ts, replies, 0, Run([Batch(ts, 0)], [], None, Waiting));
    ContinueGathers(copy, ts, replies, 0, Run([Batch(ts, 0)], [], None, Waiting));
    Continue(copy, ts, replies, 0, Run([Batch(ts, 0)], [], None, Waiting))
  }

  /** The chain finishes exactly when there is something to translate, every slice got
      a reply and no reply among them was a rejection; it then sent exactly one request
      per slice. */
  lemma FinishesExactlyWhenEverySliceIsAnswered(copy: Copy, ts: seq<string>, replies: seq<Reply>)
    ensures var r := RunChain(copy, ts, replies);
      r.ending == Finished <==>
        |ts| >= 1 && Parts(|ts|) <= |replies| && forall j :: 0 <= j < Parts(|ts|) ==> replies[j].Body?
    ensures RunChain(copy, ts, replies).ending == Finished ==> |RunChain(copy, ts, replies).requests| == Parts(|ts|)
  {
    var r := RunChain(copy, ts, replies);
    var p := Parts(|ts|);
    var k := |r.requests|;
    if |ts| >= 1 && p <= |replies| && forall j :: 0 <= j < p ==> replies[j].Body? {
      assert replies[k - 1].Body?;
      assert r.ending.Waiting? || r.ending.Stopped? || r.ending.Finished?;
    }
  }

  /** With nothing to translate (`parts` is 0) the chain never finishes: as long as no
      request is rejected, every reply triggers one more request. */
  lemma EmptyTextsNeverFinish(copy: Copy, replies: seq<Reply>)
    requires forall j :: 0 <= j < |replies| ==> replies[j].Body?
    ensures RunChain(copy, [], replies).ending == Waiting
    ensures |RunChain(copy, [], replies).requests| == |replies| + 1
  {
    var r := RunChain(copy, [], replies);
    assert Parts(0) == 0;
    assert r.ending.Waiting? || r.ending.Stopped? || r.ending.Finished?;
  }

  /** A failed middle slice does not stop the chain, and the translations of later slices
      slide down onto earlier texts: with 101 texts, a failed first reply and one answer
      for the second slice, the only gathered translation, which answers text 100, is
      the one the overlay will pair with text 0. */
  lemma FailedSliceShiftsLaterResults(copy: Copy, ts: seq<string>, t: Translation)
    requires |ts| == 101
    ensures var replies := [Body(None, ""), Body(Some([t]), "")];
      var r := RunChain(copy, ts, replies);
      && r.ending == Finished
      && r.results == [t]
      && r.requests == [ts[..100], ts[100..]]
  {
    var replies := [Body(None, ""), Body(Some([t]), "")];
    assert Parts(|ts|) == 2;
    var r := RunChain(copy, ts, replies);
    assert r.ending.Waiting? || r.ending.Stopped? || r.ending.Finished?;
    assert |r.requests| == 2;
    assert replies[..2] == replies;
    assert replies[..1] == [Body(None, "")];
    assert Batch(ts, 0) == ts[..100] && Batch(ts, 1) == ts[100..];
    assert Gathered(replies[..1]) == [];
  }

  /** `i`-th text's answer under the intended alignment: entry `i % BatchSize` of the
      reply to request `i / BatchSize`. */
  predicate Answers(replies: seq<Reply>, i: nat, t: Translation) {
    var ind := i / BatchSize;
    && ind < |replies|
    && replies[ind].HasArray()
    && i % BatchSize < |replies[ind].translations.value|
    && replies[ind].translations.value[i % BatchSize] == t
  }

  /** A reply that answers its slice in full: an array with one entry per text. */
  predicate Complete(reply: Reply, slice: seq<string>) {
    reply.HasArray() && |reply.translations.value| == |slice|
  }

  lemma DivideByBatch(i: nat, ind: nat)
    requires ind * BatchSize <= i < ind * BatchSize + BatchSize
    ensures i / BatchSize == ind && i % BatchSize == i - ind * BatchSize
  {
  }

  /** Appending a complete answer to slice `ind` keeps every gathered translation
      paired with the text at its own index. */
  lemma {:induction false} AnswersExtend(replies: seq<Reply>, ind: nat, results: seq<Translation>)
    requires ind < |replies| && replies[ind].HasArray()
    requires |replies[ind].translations.value| <= BatchSize
    requires |results| == ind * BatchSize
    requires forall i :: 0 <= i < |results| ==> Answers(replies, i, results[i])
    ensures var all := results + replies[ind].translations.value;
      forall i :: 0 <= i < |all| ==> Answers(replies, i, all[i])
  {
    var all := results + replies[ind].translations.value;
    forall i | 0 <= i < |all| ensures Answers(replies, i, all[i]) {
      if i >= |results| {
        DivideByBatch(i, ind);
      }
    }
  }

  /** The chain as intended, once request `ind` has been sent: the first reply that is a
      rejection, has no array, or has an array of the wrong length stops the chain and
      keeps the translations gathered so far. */
  function ContinueAligned(copy: Copy, ts: seq<string>, replies: seq<Reply>, ind: nat, run: Run): (r: Run)
    requires 1 <= |ts| && ind < Parts(|ts|)
    requires run.error.None?
    requires |run.requests| == ind + 1
    requires forall j :: 0 <= j <= ind ==> run.requests[j] == Batch(ts, j)
    requires ind <= |replies|
    requires forall j :: 0 <= j < ind ==> Complete(replies[j], Batch(ts, j))
    requires |run.results| == ind * BatchSize
    requires forall i :: 0 <= i < |run.results| ==> Answers(replies, i, run.results[i])
    ensures |run.requests| <= |r.requests| <= Parts(|ts|)
    ensures |r.requests| <= |replies| + 1
    ensures r.ending != Waiting ==> |r.requests| <= |replies|
    ensures forall j :: 0 <= j < |r.requests| ==> r.requests[j] == Batch(ts, j)
    ensures forall j :: 0 <= j < |r.requests| - 1 ==> Complete(replies[j], Batch(ts, j))
    ensures |r.results| <= |ts|
    ensures forall i :: 0 <= i < |r.results| ==> Answers(replies, i, r.results[i])
    ensures r.ending == Finished ==> |r.results| == |ts|
    ensures r.ending == Waiting ==> |r.requests| == |replies| + 1
    ensures r.ending == Stopped ==> !Complete(replies[|r.requests| - 1], Batch(ts, |r.requests| - 1))
    ensures r.error.Some? <==> r.ending == Stopped
    ensures r.ending == Finished ==> |r.requests| == Parts(|ts|)
    decreases |replies| - ind
  {
    var slice := Batch(ts, ind);
    SliceLength(ts, ind);
    if ind == |replies| then run.(ending := Waiting)
    else if !Complete(replies[ind], slice) then
      var message := if replies[ind].Threw? then replies[ind].message else FailureText(copy, replies[ind].message);
      run.(error := Some(message), ending := Stopped)
    else
      AnswersExtend(replies, ind, run.results);
      var results := run.results + replies[ind].translations.value;
      if ind == Parts(|ts|) - 1 then
        run.(results := results, ending := Finished)
      else
        ContinueAligned(copy, ts, replies, ind + 1, run.(results := results, requests := run.requests + [Batch(ts, ind + 1)]))
  }

  /** The intended chain: with nothing to translate it finishes at once without any
      request; otherwise every gathered translation answers the text at its own index. */
  function RunChainAligned(copy: Copy, ts: seq<string>, replies: seq<Reply>): (r: Run)
    ensures |r.requests| <= Parts(|ts|)
    ensures |r.requests| <= |replies| + 1
    ensures r.ending != Waiting ==> |r.requests| <= |replies|
    ensures forall j :: 0 <= j < |r.requests| ==> r.requests[j] == Batch(ts, j)
    ensures forall j :: 0 <= j < |r.requests| - 1 ==> Complete(replies[j], Batch(ts, j))
    ensures |r.results| <= |ts|
    ensures forall i :: 0 <= i < |r.results| ==> Answers(replies, i, r.results[i])
    ensures r.ending == Finished ==> |r.results| == |ts|
    ensures ts == [] ==> r.ending == Finished && r.requests == []
    ensures r.ending == Waiting ==> |r.requests| == |replies| + 1
    ensures r.ending == Stopped ==> 1 <= |r.requests| && !Complete(replies[|r.requests| - 1], Batch(ts, |r.requests| - 1))
    ensures r.error.Some? <==> r.ending == Stopped
    ensures r.ending == Finished ==> |r.requests| == Parts(|ts|)
  {
    if ts == [] then Run([], [], None, Finished)
    else ContinueAligned(copy, ts, replies, 0, Run([Batch(ts, 0)], [], None, Waiting))
  }

  /** The intended chain stops at the failed first slice of the scenario above instead of
      pairing the second slice's answer with the first text. */
  lemma AlignedChainStopsAtFailedSlice(copy: Copy, ts: seq<string>, t: Translation)
    requires |ts| == 101
    ensures var r := RunChainAligned(copy, ts, [Body(None, ""), Body(Some([t]), "")]);
      r.ending == Stopped && r.results == [] && |r.requests| == 1
  {
    BatchesPartitionTexts(ts);
  }

  /** When the intended chain finishes, every text was sent and answered: text `i` went
      out at position `i % BatchSize` of request `i / BatchSize`, and the gathered
      translation `i` is the entry at that position of that request's reply. */
  lemma FinishedChainAnswersEveryText(copy: Copy, ts: seq<string>, replies: seq<Reply>)
    requires RunChainAligned(copy, ts, replies).ending == Finished
    ensures var r := RunChainAligned(copy, ts, replies);
      && |r.results| == |ts|
      && forall i :: 0 <= i < |ts| ==>
           && i / BatchSize < |r.requests|
           && i % BatchSize < |r.requests[i / BatchSize]|
           && r.requests[i / BatchSize][i % BatchSize] == ts[i]
           && Answers(replies, i, r.results[i])
  {
    var r := RunChainAligned(copy, ts, replies);
    forall i | 0 <= i < |ts|
      ensures i / BatchSize < |r.requests|
      ensures i % BatchSize < |r.requests[i / BatchSize]|
      ensures r.requests[i / BatchSize][i % BatchSize] == ts[i]
    {
      BatchHoldsText(ts, i);
      assert Answers(replies, i, r.results[i]);
    }
  }
}
