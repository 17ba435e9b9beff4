/**
 * The browser script's spoken notifications: a FIFO of texts and a single
 * `isSpeaking` flag, so that at most one utterance is with the speech engine
 * at a time. When an utterance ends or fails the flag is cleared and the next
 * one starts, except that a `not-allowed` failure (the browser refuses to
 * speak) throws the waiting texts away.
 */
module SpeechQueue {

  /**
   * The queue's state. `spoken` lists what was handed to the speech engine,
   * in order. `requested` (everything accepted by `speak`) and `left`
   * (everything that has left the queue, spoken or discarded) are the
   * bookkeeping the FIFO property is stated with.
   */
  datatype SpeechState = SpeechState(queue: seq<string>, isSpeaking: bool, spoken: seq<string>,
                                     requested: seq<string>, left: seq<string>)

  /** `processSpeechQueue()`: when idle and something waits, the oldest text goes to the engine. */
  function Process(st: SpeechState): (r: SpeechState)
    ensures r.requested == st.requested
    ensures st.spoken <= r.spoken && |r.spoken| <= |st.spoken| + 1
    ensures r.isSpeaking || r.queue == []
  {
    if st.isSpeaking || st.queue == [] then st
    else SpeechState(st.queue[1..], true, st.spoken + [st.queue[0]], st.requested, st.left + [st.queue[0]])
  }

  /** `speak(text)`: nothing when voice is off or the browser has no speech synthesis. */
  function Speak(st: SpeechState, text: string, voiceEnabled: bool, supported: bool): (r: SpeechState)
    ensures st.spoken <= r.spoken && |r.spoken| <= |st.spoken| + 1
    ensures voiceEnabled && supported ==> r.isSpeaking
  {
    if !voiceEnabled || !supported then st
    else Process(st.(queue := st.queue + [text], requested := st.requested + [text]))
  }

  /** The utterance's `onend`. */
  function OnEnd(st: SpeechState): (r: SpeechState)
    ensures st.spoken <= r.spoken && |r.spoken| <= |st.spoken| + 1
    ensures r.isSpeaking <==> st.queue != []
    ensures r.isSpeaking || r.queue == []
  {
    Process(st.(isSpeaking := false))
  }

  /** The utterance's `onerror`; `notAllowed` when `event.error === 'not-allowed'`. */
  function OnError(st: SpeechState, notAllowed: bool): (r: SpeechState)
    ensures st.spoken <= r.spoken && |r.spoken| <= |st.spoken| + 1
    ensures notAllowed ==> !r.isSpeaking && r.queue == [] && r.spoken == st.spoken
    ensures r.isSpeaking || r.queue == []
  {
    if notAllowed then st.(isSpeaking := false, queue := [], left := st.left + st.queue)
    else Process(st.(isSpeaking := false))
  }

  /** Texts leave the queue in the order they were accepted, and the queue only waits while something is being spoken. */
  predicate Inv(st: SpeechState) {
    st.requested == st.left + st.queue && (!st.isSpeaking ==> st.queue == [])
  }

  lemma InitialInv()
    ensures Inv(SpeechState([], false, [], [], []))
  {
  }

  lemma ProcessKeepsFifo(st: SpeechState)
    requires st.requested == st.left + st.queue
    ensures Process(st).requested == Process(st).left + Process(st).queue
  {
    if !st.isSpeaking && st.queue != [] {
      assert st.left + st.queue == st.left + [st.queue[0]] + st.queue[1..];
    }
  }

  /** Every event keeps the invariant. */
  lemma EventsKeepInv(st: SpeechState, text: string, voiceEnabled: bool, supported: bool, notAllowed: bool)
    requires Inv(st)
    ensures Inv(Speak(st, text, voiceEnabled, supported))
    ensures Inv(OnEnd(st))
    ensures Inv(OnError(st, notAllowed))
  {
    if voiceEnabled && supported {
      var st1 := st.(queue := st.queue + [text], requested := st.requested + [text]);
      assert st1.requested == st1.left + st1.queue;
      ProcessKeepsFifo(st1);
    }
    ProcessKeepsFifo(st.(isSpeaking := false));
  }

  /** With voice off, `speak` changes nothing. */
  lemma DisabledSpeaksNothing(st: SpeechState, text: string, supported: bool)
    ensures Speak(st, text, false, supported) == st
  {
  }

  /** A text spoken while the engine is idle goes straight to it; while busy it waits at the back. */
  lemma SpeakWhenIdleOrBusy(st: SpeechState, text: string)
    requires Inv(st)
    ensures !st.isSpeaking ==> Speak(st, text, true, true).spoken == st.spoken + [text] && Speak(st, text, true, true).queue == []
    ensures st.isSpeaking ==> Speak(st, text, true, true).queue == st.queue + [text] && Speak(st, text, true, true).spoken == st.spoken
  {
  }

  /** A normal end, or any failure other than `not-allowed`, starts the oldest waiting text; `not-allowed` leaves the engine idle with nothing waiting. */
  lemma EndAdvances(st: SpeechState, notAllowed: bool)
    requires Inv(st) && st.queue != []
    ensures OnEnd(st).spoken == st.spoken + [st.queue[0]] && OnEnd(st).queue == st.queue[1..] && OnEnd(st).isSpeaking
    ensures !notAllowed ==> OnError(st, notAllowed) == OnEnd(st)
    ensures notAllowed ==> (OnError(st, notAllowed).queue == [] && !OnError(st, notAllowed).isSpeaking
                            && OnError(st, notAllowed).spoken == st.spoken)
  {
  }

  /** Without a `not-allowed` failure, everything accepted is eventually spoken in order: what was handed to the engine plus what waits is what was accepted. */
  lemma SpokenInOrder(st: SpeechState)
    requires Inv(st) && st.left == st.spoken
    ensures st.spoken + st.queue == st.requested
  {
  }

  /** The queue as the script keeps it, with the bookkeeping as ghost fields. */
  class Speaker {
    var queue: seq<string>
    var isSpeaking: bool
    var spoken: seq<string>
    ghost var requested: seq<string>
    ghost var left: seq<string>

    ghost function State(): SpeechState
      reads this
    {
      SpeechState(queue, isSpeaking, spoken, requested, left)
    }

    constructor ()
      ensures State() == SpeechState([], false, [], [], []) && Inv(State())
    {
      queue, isSpeaking, spoken := [], false, [];
      requested, left := [], [];
    }

    method ProcessQueue()
      modifies this
      ensures State() == Process(old(State()))
    {
      if isSpeaking || queue == [] {
        return;
      }
      isSpeaking := true;
      var utterance := queue[0];
      queue := queue[1..];
      left := left + [utterance];
      spoken := spoken + [utterance];
    }

    /** `speak(text)` with the stored voice setting and the browser's support passed in. */
    method Say(text: string, voiceEnabled: bool, supported: bool)
      modifies this
      ensures State() == Speak(old(State()), text, voiceEnabled, supported)
    {
      if !voiceEnabled || !supported {
        return;
      }
      queue := queue + [text];
      requested := requested + [text];
      ProcessQueue();
    }

    method Ended()
      modifies this
      ensures State() == OnEnd(old(State()))
    {
      isSpeaking := false;
      ProcessQueue();
    }

    method Failed(notAllowed: bool)
      modifies this
      ensures State() == OnError(old(State()), notAllowed)
    {
      isSpeaking := false;
      if notAllowed {
        left := left + queue;
        queue := [];
      } else {
        ProcessQueue();
      }
    }
  }
}
