/** The transcript reconciler: the `message` handler folds streamed partial and final
    speech-to-text events into the conversation shown to the user. */
module Transcript {
  import opened Wrappers

  /** One conversation entry; `timestamp` is the display time taken when it was created. */
  datatype Utterance = Utterance(role: string, text: string, timestamp: string, isFinal: bool)

  /** A `message` event from the voice channel. Only transcript messages touch the
      conversation; `transcriptType` is "final" or "partial". */
  datatype Message =
    | TranscriptMessage(role: string, transcriptType: string, transcript: string)
    | OtherMessage

  /** `msg.role === role && !msg.isFinal`, the `findIndex` test. */
  predicate IsPendingFor(u: Utterance, role: string) {
    u.role == role && !u.isFinal
  }

  /** `i` is the first pending entry for `role`. */
  ghost predicate IsFirstPending(c: seq<Utterance>, role: string, i: int) {
    && 0 <= i < |c|
    && IsPendingFor(c[i], role)
    && forall j :: 0 <= j < i ==> !IsPendingFor(c[j], role)
  }

  /** No entry for `role` is pending. */
  ghost predicate NoPending(c: seq<Utterance>, role: string) {
    forall j :: 0 <= j < |c| ==> !IsPendingFor(c[j], role)
  }

  /** The invariant the reconciler keeps: at most one pending entry per role. */
  ghost predicate AtMostOnePendingPerRole(c: seq<Utterance>) {
    forall i, j ::
      0 <= i < |c| && 0 <= j < |c| && !c[i].isFinal && !c[j].isFinal && c[i].role == c[j].role ==> i == j
  }

  /** `findIndex` from position `from` on. */
  function FindPendingFrom(c: seq<Utterance>, role: string, from: nat): (r: Option<nat>)
    requires from <= |c|
    requires forall j :: 0 <= j < from ==> !IsPendingFor(c[j], role)
    ensures r.Some? ==> IsFirstPending(c, role, r.value)
    ensures r.None? ==> NoPending(c, role)
    decreases |c| - from
  {
    if from == |c| then None
    else if IsPendingFor(c[from], role) then Some(from)
    else FindPendingFrom(c, role, from + 1)
  }

  /** `conversation.findIndex(msg => msg.role === role && !msg.isFinal)`, with `None` for -1. */
  function FindPending(c: seq<Utterance>, role: string): (r: Option<nat>)
    ensures r.Some? ==> IsFirstPending(c, role, r.value)
    ensures r.None? ==> NoPending(c, role)
  {
    FindPendingFrom(c, role, 0)
  }

  /** One transcript event. A final event turns the first pending entry for its role
      final with the new text, keeping that entry's timestamp, or appends a new final
      entry stamped `now`; a partial event rewrites only the pending entry's text, or
      appends a new pending entry stamped `now`. */
  function Reconcile(c: seq<Utterance>, role: string, isFinal: bool, text: string, now: string): (c': seq<Utterance>)
    ensures forall i :: IsFirstPending(c, role, i) ==> c' == c[i := Utterance(role, text, c[i].timestamp, isFinal)]
    ensures NoPending(c, role) ==> c' == c + [Utterance(role, text, now, isFinal)]
  {
    match FindPending(c, role)
    case Some(i) =>
      if isFinal then c[i := Utterance(role, text, c[i].timestamp, true)]
      else c[i := c[i].(text := text)]
    case None => c + [Utterance(role, text, now, isFinal)]
  }

  /** The `message` handler's effect on the conversation: only transcript messages
      touch it, each leaving exactly one entry with the message's role, text and
      finality (rewritten or appended) and keeping the one-pending-per-role invariant. */
  function OnMessage(c: seq<Utterance>, m: Message, now: string): (c': seq<Utterance>)
    ensures m.OtherMessage? ==> c' == c
    ensures m.TranscriptMessage? ==>
      && |c| <= |c'| <= |c| + 1
      && exists k :: 0 <= k < |c'| && c'[k].role == m.role && c'[k].text == m.transcript
           && c'[k].isFinal == (m.transcriptType == "final")
    ensures AtMostOnePendingPerRole(c) ==> AtMostOnePendingPerRole(c')
  {
    match m
    case TranscriptMessage(role, transcriptType, transcript) =>
      ReconcileRewritesOrAppends(c, role, transcriptType == "final", transcript, now);
      KeepsInvariantIfHeld(c, role, transcriptType == "final", transcript, now);
      Reconcile(c, role, transcriptType == "final", transcript, now)
    case OtherMessage => c
  }

  lemma KeepsInvariantIfHeld(c: seq<Utterance>, role: string, isFinal: bool, text: string, now: string)
    ensures AtMostOnePendingPerRole(c) ==> AtMostOnePendingPerRole(Reconcile(c, role, isFinal, text, now))
  {
    if AtMostOnePendingPerRole(c) {
      ReconcileKeepsInvariant(c, role, isFinal, text, now);
    }
  }

  /** Under the invariant the entry `findIndex` picks is the only pending one for its role. */
  lemma FirstPendingIsOnlyPending(c: seq<Utterance>, role: string, i: int)
    requires AtMostOnePendingPerRole(c)
    requires IsFirstPending(c, role, i)
    ensures forall j :: 0 <= j < |c| && IsPendingFor(c[j], role) ==> j == i
  {
  }

  /** A transcript event keeps at most one pending entry per role. */
  lemma ReconcileKeepsInvariant(c: seq<Utterance>, role: string, isFinal: bool, text: string, now: string)
    requires AtMostOnePendingPerRole(c)
    ensures AtMostOnePendingPerRole(Reconcile(c, role, isFinal, text, now))
  {
    var c' := Reconcile(c, role, isFinal, text, now);
    match FindPending(c, role)
    case Some(i) =>
      assert c' == c[i := Utterance(role, text, c[i].timestamp, isFinal)];
      forall p, q | 0 <= p < |c'| && 0 <= q < |c'| && !c'[p].isFinal && !c'[q].isFinal && c'[p].role == c'[q].role
        ensures p == q
      {
        assert c'[p].role == c[p].role && c'[q].role == c[q].role;
        assert !c[p].isFinal && !c[q].isFinal;
      }
    case None =>
      assert c' == c + [Utterance(role, text, now, isFinal)];
      forall p, q | 0 <= p < |c'| && 0 <= q < |c'| && !c'[p].isFinal && !c'[q].isFinal && c'[p].role == c'[q].role
        ensures p == q
      {
        if p < |c| && q < |c| {
          assert c'[p] == c[p] && c'[q] == c[q];
        } else if p < |c| {
          assert IsPendingFor(c[p], role);
        } else if q < |c| {
          assert IsPendingFor(c[q], role);
        }
      }
  }

  /** A transcript event rewrites exactly one existing entry or appends exactly one:
      the length never shrinks, every entry keeps its place, role and timestamp, and
      every entry other than the touched one is unchanged. */
  lemma ReconcileRewritesOrAppends(c: seq<Utterance>, role: string, isFinal: bool, text: string, now: string)
    ensures var c' := Reconcile(c, role, isFinal, text, now);
      && (|c'| == |c| || |c'| == |c| + 1)
      && (exists k :: 0 <= k < |c'|
            && c'[k].role == role && c'[k].text == text && c'[k].isFinal == isFinal
            && (forall j :: 0 <= j < |c| && j != k ==> c'[j] == c[j]))
      && (forall j :: 0 <= j < |c| ==> c'[j].role == c[j].role && c'[j].timestamp == c[j].timestamp)
      && (|c'| == |c| + 1 ==> c'[|c|] == Utterance(role, text, now, isFinal))
  {
    var c' := Reconcile(c, role, isFinal, text, now);
    match FindPending(c, role)
    case Some(i) =>
      assert c' == c[i := Utterance(role, text, c[i].timestamp, isFinal)];
      assert c'[i].role == role;
    case None =>
      assert c' == c + [Utterance(role, text, now, isFinal)];
      assert c'[|c|].role == role;
  }

  /** A final event for a role with a pending entry turns that slot final with the new
      text and keeps the slot's original timestamp. */
  lemma FinalKeepsTimestamp(c: seq<Utterance>, role: string, text: string, now: string, i: int)
    requires IsFirstPending(c, role, i)
    ensures var c' := Reconcile(c, role, true, text, now);
      |c'| == |c| && c'[i] == Utterance(role, text, c[i].timestamp, true)
  {
  }

  /** A partial event for a role with a pending entry changes only that entry's text. */
  lemma PartialChangesOnlyText(c: seq<Utterance>, role: string, text: string, now: string, i: int)
    requires IsFirstPending(c, role, i)
    ensures Reconcile(c, role, false, text, now) == c[i := c[i].(text := text)]
  {
  }

  /** Two back-to-back final events for a role with nothing pending give two separate
      final entries: no merging and no de-duplication, even of equal texts. */
  lemma BackToBackFinals(c: seq<Utterance>, role: string, t1: string, n1: string, t2: string, n2: string)
    requires NoPending(c, role)
    ensures Reconcile(Reconcile(c, role, true, t1, n1), role, true, t2, n2)
         == c + [Utterance(role, t1, n1, true), Utterance(role, t2, n2, true)]
  {
    var c1 := Reconcile(c, role, true, t1, n1);
    assert NoPending(c1, role);
  }

  /** Replays a sequence of `message` events, each with the time it arrived. */
  function Replay(c: seq<Utterance>, events: seq<(Message, string)>): (c': seq<Utterance>)
    decreases |events|
  {
    if |events| == 0 then c
    else Replay(OnMessage(c, events[0].0, events[0].1), events[1..])
  }

  /** Whatever the events, the conversation never holds two pending entries for one role. */
  lemma {:induction false} ReplayKeepsInvariant(c: seq<Utterance>, events: seq<(Message, string)>)
    requires AtMostOnePendingPerRole(c)
    ensures AtMostOnePendingPerRole(Replay(c, events))
    decreases |events|
  {
    if |events| > 0 {
      var (m, now) := events[0];
      if m.TranscriptMessage? {
        ReconcileKeepsInvariant(c, m.role, m.transcriptType == "final", m.transcript, now);
      }
      ReplayKeepsInvariant(OnMessage(c, m, now), events[1..]);
    }
  }

  /** Replaying never shrinks the conversation and adds at most one entry per event. */
  lemma {:induction false} ReplayLength(c: seq<Utterance>, events: seq<(Message, string)>)
    ensures |c| <= |Replay(c, events)| <= |c| + |events|
    decreases |events|
  {
    if |events| > 0 {
      var (m, now) := events[0];
      if m.TranscriptMessage? {
        ReconcileRewritesOrAppends(c, m.role, m.transcriptType == "final", m.transcript, now);
      }
      ReplayLength(OnMessage(c, m, now), events[1..]);
    }
  }

  /** "Hi", "Hi there" (partial) then "Hi there!" (final) from one speaker leave one
      final entry carrying the first event's timestamp. */
  lemma GreetingScenario(t1: string, t2: string, t3: string)
    ensures Replay([], [
        (TranscriptMessage("user", "partial", "Hi"), t1),
        (TranscriptMessage("user", "partial", "Hi there"), t2),
        (TranscriptMessage("user", "final", "Hi there!"), t3)])
      == [Utterance("user", "Hi there!", t1, true)]
  {
    var e1 := (TranscriptMessage("user", "partial", "Hi"), t1);
    var e2 := (TranscriptMessage("user", "partial", "Hi there"), t2);
    var e3 := (TranscriptMessage("user", "final", "Hi there!"), t3);
    var c1 := [Utterance("user", "Hi", t1, false)];
    assert OnMessage([], e1.0, e1.1) == c1;
    assert IsFirstPending(c1, "user", 0);
    var c2 := [Utterance("user", "Hi there", t1, false)];
    assert OnMessage(c1, e2.0, e2.1) == c2;
    assert IsFirstPending(c2, "user", 0);
    var c3 := [Utterance("user", "Hi there!", t1, true)];
    assert OnMessage(c2, e3.0, e3.1) == c3;
    assert [e1, e2, e3][1..] == [e2, e3];
    assert [e2, e3][1..] == [e3];
    assert Replay(c2, [e3]) == Replay(c3, []);
  }

  /** "Hello" then "Welcome", both final, from the assistant give two final entries. */
  lemma WelcomeScenario(t1: string, t2: string)
    ensures Replay([], [
        (TranscriptMessage("assistant", "final", "Hello"), t1),
        (TranscriptMessage("assistant", "final", "Welcome"), t2)])
      == [Utterance("assistant", "Hello", t1, true), Utterance("assistant", "Welcome", t2, true)]
  {
    var e1 := (TranscriptMessage("assistant", "final", "Hello"), t1);
    var e2 := (TranscriptMessage("assistant", "final", "Welcome"), t2);
    var c1 := [Utterance("assistant", "Hello", t1, true)];
    assert NoPending([], "assistant");
    assert Reconcile([], "assistant", true, "Hello", t1) == c1;
    assert OnMessage([], e1.0, e1.1) == c1;
    assert NoPending(c1, "assistant");
    var c2 := c1 + [Utterance("assistant", "Welcome", t2, true)];
    assert Reconcile(c1, "assistant", true, "Welcome", t2) == c2;
    assert OnMessage(c1, e2.0, e2.1) == c2;
    assert [e1, e2][1..] == [e2];
    assert Replay(c1, [e2]) == Replay(c2, []);
  }
}
