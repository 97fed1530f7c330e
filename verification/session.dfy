/** The call-session controller of the voice hook: the channel callbacks
    (`call-start`, `call-end`, `message`), `initializeAssistant`, `toggleCall` and
    `toggleMute`, as transitions on one state. Calls into the voice SDK and the
    backend are recorded, in order, in the `calls` of each step; whether they
    succeed is an input. */
module Session {
  import opened Wrappers
  import Transcript

  /** The rating `toggleCall` submits for every call it ends. */
  const EndOfCallRating := 5

  /** An outward call made by the controller. Channels are numbered in the order
      `initializeAssistant` creates them. */
  datatype Call =
    | NewChannel(channel: nat)
    | StopChannel(channel: nat)
    | StartCall(channel: nat, assistantId: string)
    | SetMuted(channel: nat, muted: bool)
    | CreateMeeting(meetingId: string)
    | RateMeeting(ratedId: Option<string>, rating: int)

  /** `channel` is the instance held in `vapiRef` (None for null); `created` counts the
      instances made so far. */
  datatype State = State(
    channel: Option<nat>,
    created: nat,
    isSessionActive: bool,
    callId: Option<string>,
    isMuted: bool,
    conversation: seq<Transcript.Utterance>)

  /** A transition: the next state and the calls made on the way. */
  datatype Step = Step(next: State, calls: seq<Call>)

  /** The hook's state on mount. */
  const Initial := State(None, 0, false, None, false, [])

  /** What the outside world answers during `toggleCall`: the id returned by `start`
      (None when `start` throws or returns nothing), and whether `rateMeeting` resolves. */
  datatype Outcomes = Outcomes(startResult: Option<string>, rateSucceeds: bool)

  /** Events the current channel delivers to the registered callbacks. */
  datatype Event =
    | CallStartEvent
    | CallEndEvent
    | MessageEvent(message: Transcript.Message, timestamp: string)
    | ErrorEvent

  /** Every channel the state refers to has been created. */
  ghost predicate Valid(s: State) {
    && (s.channel.Some? ==> s.channel.value < s.created)
    && Transcript.AtMostOnePendingPerRole(s.conversation)
  }

  /** `initializeAssistant`: stop and drop any existing channel, then create a new one.
      The session flags, call id, mute flag and conversation are left as they were. */
  function InitializeAssistant(s: State, assistantId: string): (t: Step)
    ensures t.next.channel == Some(s.created) && t.next.created == s.created + 1
    ensures t.next.isSessionActive == s.isSessionActive && t.next.callId == s.callId
    ensures t.next.isMuted == s.isMuted && t.next.conversation == s.conversation
    ensures s.channel.Some? ==> t.calls == [StopChannel(s.channel.value), NewChannel(s.created)]
    ensures s.channel.None? ==> t.calls == [NewChannel(s.created)]
  {
    var stop := if s.channel.Some? then [StopChannel(s.channel.value)] else [];
    Step(s.(channel := Some(s.created), created := s.created + 1), stop + [NewChannel(s.created)])
  }

  /** The callbacks registered on the channel. */
  function OnEvent(s: State, e: Event): (s': State)
    ensures e.CallStartEvent? ==> s' == s.(isSessionActive := true)
    ensures e.CallEndEvent? ==> !s'.isSessionActive && s'.callId.None? && s'.conversation == []
    ensures s'.channel == s.channel && s'.created == s.created && s'.isMuted == s.isMuted
    ensures e.MessageEvent? ==> s'.isSessionActive == s.isSessionActive && s'.callId == s.callId
    ensures e.MessageEvent? && e.message.TranscriptMessage? ==>
      var m := e.message;
      s'.conversation == Transcript.Reconcile(s.conversation, m.role, m.transcriptType == "final", m.transcript, e.timestamp)
    ensures e.MessageEvent? && e.message.OtherMessage? ==> s'.conversation == s.conversation
    ensures e.ErrorEvent? ==> s' == s
  {
    match e
    case CallStartEvent => s.(isSessionActive := true)
    case CallEndEvent => s.(isSessionActive := false, callId := None, conversation := [])
    case MessageEvent(m, now) => s.(conversation := Transcript.OnMessage(s.conversation, m, now))
    case ErrorEvent => s
  }

  /** `toggleCall`. With a session active it rates the call 5 and only then stops the
      channel; otherwise it starts a call, records the id `start` returns and registers
      the meeting under that id. A throw anywhere (including calling into a missing
      channel) is caught and skips the rest of the branch. */
  function ToggleCall(s: State, assistantId: string, out: Outcomes): (t: Step)
    ensures s.isSessionActive ==> t.next == s
    ensures s.isSessionActive ==> |t.calls| >= 1 && t.calls[0] == RateMeeting(s.callId, EndOfCallRating)
    ensures s.isSessionActive ==>
      t.calls[1..] == (if out.rateSucceeds && s.channel.Some? then [StopChannel(s.channel.value)] else [])
    ensures !s.isSessionActive && s.channel.None? ==> t == Step(s, [])
    ensures !s.isSessionActive && s.channel.Some? && out.startResult.None? ==>
      t == Step(s, [StartCall(s.channel.value, assistantId)])
    ensures !s.isSessionActive && s.channel.Some? && out.startResult.Some? ==>
      && t.next == s.(callId := out.startResult)
      && t.calls == [StartCall(s.channel.value, assistantId), CreateMeeting(out.startResult.value)]
  {
    if s.isSessionActive then
      var rate := [RateMeeting(s.callId, EndOfCallRating)];
      if out.rateSucceeds && s.channel.Some? then Step(s, rate + [StopChannel(s.channel.value)])
      else Step(s, rate)
    else if s.channel.None? then
      Step(s, [])
    else
      var start := [StartCall(s.channel.value, assistantId)];
      match out.startResult
      case None => Step(s, start)
      case Some(id) => Step(s.(callId := Some(id)), start + [CreateMeeting(id)])
  }

  /** `toggleMute`: without a channel nothing happens; otherwise the mute flag flips and
      the new value is the one sent to the channel. */
  function ToggleMute(s: State): (t: Step)
    ensures s.channel.None? ==> t == Step(s, [])
    ensures s.channel.Some? ==> t.next == s.(isMuted := !s.isMuted)
    ensures s.channel.Some? ==> t.calls == [SetMuted(s.channel.value, t.next.isMuted)]
  {
    if s.channel.None? then Step(s, [])
    else
      var muted := !s.isMuted;
      Step(s.(isMuted := muted), [SetMuted(s.channel.value, muted)])
  }

  /** Two mute toggles restore the state. */
  lemma ToggleMuteTwice(s: State)
    ensures ToggleMute(ToggleMute(s).next).next == s
  {
  }

  /** Anything the hook can be asked to do, or the channel can report. */
  datatype Input =
    | Initialize(assistantId: string)
    | Toggle(assistantId: string, out: Outcomes)
    | Mute
    | Deliver(e: Event)

  function Apply(s: State, i: Input): Step {
    match i
    case Initialize(a) => InitializeAssistant(s, a)
    case Toggle(a, out) => ToggleCall(s, a, out)
    case Mute => ToggleMute(s)
    case Deliver(e) => Step(OnEvent(s, e), [])
  }

  /** Runs a sequence of inputs, collecting the calls made. */
  function Run(s: State, inputs: seq<Input>): (t: Step)
    decreases |inputs|
  {
    if |inputs| == 0 then Step(s, [])
    else
      var first := Apply(s, inputs[0]);
      var rest := Run(first.next, inputs[1..]);
      Step(rest.next, first.calls + rest.calls)
  }

  lemma ApplyKeepsValid(s: State, i: Input)
    requires Valid(s)
    ensures Valid(Apply(s, i).next)
  {
    match i
    case Deliver(MessageEvent(m, now)) =>
      if m.TranscriptMessage? {
        Transcript.ReconcileKeepsInvariant(s.conversation, m.role, m.transcriptType == "final", m.transcript, now);
      }
    case _ =>
  }

  /** Every reachable state refers only to channels already created, and its
      conversation has at most one pending entry per role. */
  lemma {:induction false} RunKeepsValid(s: State, inputs: seq<Input>)
    requires Valid(s)
    ensures Valid(Run(s, inputs).next)
    decreases |inputs|
  {
    if |inputs| > 0 {
      ApplyKeepsValid(s, inputs[0]);
      RunKeepsValid(Apply(s, inputs[0]).next, inputs[1..]);
    }
  }

  /** The mounted hook's state is valid, so every state any sequence of inputs reaches
      from it is valid too. */
  lemma ReachableValid(inputs: seq<Input>)
    ensures Valid(Initial)
    ensures Valid(Run(Initial, inputs).next)
  {
    RunKeepsValid(Initial, inputs);
  }

  /** Only the channel's own `call-start` and `call-end` callbacks move the session
      flag: `toggleCall` merely asks the channel. */
  lemma OnlyEventsMoveSessionFlag(s: State, i: Input)
    requires !i.Deliver?
    ensures Apply(s, i).next.isSessionActive == s.isSessionActive
    ensures Apply(s, i).next.conversation == s.conversation
  {
  }

  /** The rating is sent before, never after, the stop request. */
  lemma RateBeforeStop(s: State, assistantId: string, out: Outcomes, k: int)
    requires 0 <= k < |ToggleCall(s, assistantId, out).calls|
    requires ToggleCall(s, assistantId, out).calls[k].StopChannel?
    ensures k >= 1 && ToggleCall(s, assistantId, out).calls[k - 1] == RateMeeting(s.callId, EndOfCallRating)
  {
  }

  /** `callId` is set only after `start` returns: when `start` threw but the channel
      still reported `call-start`, ending the call rates it with no meeting id. */
  lemma RatingWithoutCallId()
    ensures var inputs := [
        Initialize("a"),
        Toggle("a", Outcomes(None, true)),
        Deliver(CallStartEvent),
        Toggle("a", Outcomes(None, true))];
      RateMeeting(None, EndOfCallRating) in Run(Initial, inputs).calls
  {
    var s1 := InitializeAssistant(Initial, "a").next;
    var s2 := ToggleCall(s1, "a", Outcomes(None, true)).next;
    var s3 := OnEvent(s2, CallStartEvent);
    assert s3.isSessionActive && s3.callId.None?;
    var t4 := ToggleCall(s3, "a", Outcomes(None, true));
    assert t4.calls[0] == RateMeeting(None, EndOfCallRating);
    var inputs := [Initialize("a"), Toggle("a", Outcomes(None, true)), Deliver(CallStartEvent), Toggle("a", Outcomes(None, true))];
    assert inputs[1..][1..][1..][1..] == [];
    assert Run(s3, inputs[3..]).calls == t4.calls;
  }
}
