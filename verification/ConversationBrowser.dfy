/** The view object itself: an array of pending messages, an index into it and a counter of the
    messages shown, which the chunked display keeps in step. */
module ConversationBrowser {
  import opened MessageQueue

  class Browser {
    var pendingMessages: seq<Entry>
    var nextPendingMessageIndex: nat
    var pendingMessagesDisplayed: nat
    var messageDisplayPending: bool
    var isActive: bool
    var destroyed: bool
    var initializingHTMLDocument: bool
    // the environment: is the progress listener registered, how many idle callbacks are outstanding
    var listening: bool
    var idleCallbacks: nat
    // what the page shows, and the history since it was loaded
    var shown: seq<Shown>
    ghost var appended: seq<Entry>
    ghost var loaded: bool

    /** The array is cleared as soon as it has been read, and between events the two counters agree. */
    ghost predicate Valid()
      reads this
    {
      && (if pendingMessages == [] then nextPendingMessageIndex == 0
          else nextPendingMessageIndex < |pendingMessages|)
      && pendingMessagesDisplayed == nextPendingMessageIndex
      && !initializingHTMLDocument
    }

    ghost function Backlog(): seq<Entry>
      requires nextPendingMessageIndex <= |pendingMessages|
      reads this
    {
      pendingMessages[nextPendingMessageIndex..]
    }

    ghost function Abs(): Queue
      requires nextPendingMessageIndex <= |pendingMessages|
      reads this
    {
      Queue(Backlog(), shown, appended, messageDisplayPending, isActive, loaded, destroyed, listening, idleCallbacks)
    }

    constructor (active: bool)
      ensures Valid() && Abs() == Start(active)
    {
      pendingMessages, nextPendingMessageIndex, pendingMessagesDisplayed := [], 0, 0;
      messageDisplayPending, isActive, destroyed, initializingHTMLDocument := false, active, false, false;
      listening, idleCallbacks := false, 0;
      shown, appended, loaded := [], [], false;
    }

    method AppendMessage(entry: Entry)
      requires Valid()
      modifies this
      ensures Valid() && Abs() == Step(old(Abs()), Append(entry))
    {
      pendingMessages := pendingMessages + [entry];
      appended := appended + [entry];
      assert Backlog() == old(Backlog()) + [entry];
      if isActive {
        StartDisplayingPendingMessages(true, _ => 0);
      }
    }

    method SetIsActive(value: bool, timing: Timing)
      requires Valid()
      modifies this
      ensures Valid() && Abs() == Step(old(Abs()), SetActive(value, timing))
    {
      isActive := value;
      if value && |pendingMessages| > 0 {
        StartDisplayingPendingMessages(false, timing);
      }
    }

    /** `timing` is the deadline of 200 ms that an undelayed start makes for itself. */
    method StartDisplayingPendingMessages(delayed: bool, timing: Timing)
      requires Valid()
      modifies this
      ensures Valid()
      ensures Abs() ==
        var q := old(Abs());
        if q.draining then q
        else if delayed then q.(draining := true, idle := q.idle + 1)
        else Display(q.(draining := true), timing)
    {
      if messageDisplayPending {
        return;
      }
      messageDisplayPending := true;
      if delayed {
        RequestIdleCallback();
      } else {
        DisplayPendingMessages(timing);
      }
    }

    method RequestIdleCallback()
      modifies this`idleCallbacks
      ensures idleCallbacks == old(idleCallbacks) + 1
    {
      idleCallbacks := idleCallbacks + 1;
    }

    /** The event loop runs one outstanding callback. */
    method IdleCallback(timing: Timing)
      requires Valid()
      modifies this
      ensures Valid() && Abs() == Step(old(Abs()), Idle(timing))
    {
      if idleCallbacks == 0 {
        return;
      }
      idleCallbacks := idleCallbacks - 1;
      DisplayPendingMessages(timing);
    }

    /** The next unread message, if any. Reading the last one clears the array. */
    method GetNextPendingMessage() returns (found: bool, entry: Entry)
      requires nextPendingMessageIndex <= |pendingMessages|
      modifies this`pendingMessages, this`nextPendingMessageIndex
      ensures nextPendingMessageIndex <= |pendingMessages|
      ensures found <==> old(Backlog()) != []
      ensures found ==> old(Backlog()) == [entry] + Backlog()
      ensures !found ==> pendingMessages == old(pendingMessages) && nextPendingMessageIndex == old(nextPendingMessageIndex)
      ensures found && Backlog() == [] ==> pendingMessages == [] && nextPendingMessageIndex == 0
      ensures found && Backlog() != [] ==>
        pendingMessages == old(pendingMessages) && nextPendingMessageIndex == old(nextPendingMessageIndex) + 1
    {
      var length := |pendingMessages|;
      if nextPendingMessageIndex == length {
        return false, Entry("", false, false);
      }
      found, entry := true, pendingMessages[nextPendingMessageIndex];
      nextPendingMessageIndex := nextPendingMessageIndex + 1;
      if nextPendingMessageIndex == length {
        pendingMessages := [];
        nextPendingMessageIndex := 0;
      }
    }

    method GetPendingMessagesCount() returns (count: nat)
      ensures count == |pendingMessages|
    {
      count := |pendingMessages|;
    }

    method DisplayMessage(entry: Entry, noAutoScroll: bool)
      modifies this`shown
      ensures shown == old(shown) + [Shown(entry, noAutoScroll)]
    {
      shown := shown + [Shown(entry, noAutoScroll)];
    }

    /** The loop of one callback: at least one message if there is any, and on while time remains. */
    method ShowChunk(timing: Timing, max: nat)
      requires Valid() && max == |pendingMessages|
      modifies this`pendingMessages, this`nextPendingMessageIndex, this`pendingMessagesDisplayed, this`shown
      ensures nextPendingMessageIndex <= |pendingMessages|
      ensures var backlog := old(Backlog());
        var n := Quota(timing, |backlog|, 0);
        && shown == old(shown) + Marked(backlog)[..n]
        && Backlog() == backlog[n..]
        && pendingMessagesDisplayed == old(pendingMessagesDisplayed) + n
        && (backlog != [] ==> ChunkEnds(timing, |backlog|, n))
        && (n < |backlog| ==> pendingMessages == old(pendingMessages)
                              && nextPendingMessageIndex == old(nextPendingMessageIndex) + n)
        && (n == |backlog| ==> pendingMessages == [] && nextPendingMessageIndex == 0)
    {
      ghost var backlog, start := Backlog(), nextPendingMessageIndex;
      var k: nat := 0;
      assert Marked(backlog)[..0] == [] && shown + [] == shown;
      while true
        invariant k <= |backlog|
        invariant nextPendingMessageIndex <= |pendingMessages| && Backlog() == backlog[k..]
        invariant k == |backlog| ==> pendingMessages == [] && nextPendingMessageIndex == 0
        invariant k < |backlog| ==> pendingMessages == old(pendingMessages) && nextPendingMessageIndex == start + k
        invariant pendingMessagesDisplayed == start + k
        invariant shown == old(shown) + Marked(backlog)[..k]
        invariant Quota(timing, |backlog|, 0) == Quota(timing, |backlog|, k)
        invariant forall j :: 0 <= j < k ==> timing(j) > 2
        decreases |backlog| - k
      {
        var found, entry := GetNextPendingMessage();
        if !found {
          break;
        }
        assert entry == backlog[k] && Backlog() == backlog[k + 1..];
        pendingMessagesDisplayed := pendingMessagesDisplayed + 1;
        DisplayMessage(entry, pendingMessagesDisplayed < max);
        ShownNext(backlog, k, old(shown));
        if timing(k) <= 2 {
          break;
        }
        k := k + 1;
      }
    }

    static lemma ShownNext(backlog: seq<Entry>, k: nat, shown: seq<Shown>)
      requires k < |backlog|
      ensures shown + Marked(backlog)[..k + 1]
           == shown + Marked(backlog)[..k] + [Shown(backlog[k], k + 1 < |backlog|)]
    {
    }

    method DisplayPendingMessages(timing: Timing)
      requires Valid()
      modifies this
      ensures Valid() && Abs() == Display(old(Abs()), timing)
    {
      if !messageDisplayPending {
        return;
      }

      var max := GetPendingMessagesCount();
      ShowChunk(timing, max);
      if pendingMessagesDisplayed < max {
        RequestIdleCallback();
        return;
      }
      messageDisplayPending := false;
      pendingMessagesDisplayed := 0;
    }

    /** Another conversation is to be displayed: the page is loaded anew. */
    method InitConversation()
      requires Valid()
      modifies this
      ensures Valid() && Abs() == Step(old(Abs()), Init)
    {
      messageDisplayPending := false;
      listening := true;
      loaded := false;
    }

    /** A progress notification; only a registered listener gets any. */
    method OnStateChange(stateStop: bool, stateIsDocument: bool, stateIsWindow: bool, isConversationPage: bool)
      requires Valid()
      modifies this
      ensures Valid()
      ensures Abs() == if stateStop && (stateIsDocument || stateIsWindow) && isConversationPage
                       then Step(old(Abs()), Load) else old(Abs())
    {
      hide Display, Quota, Marked;
      if !listening {
        return;
      }
      if !stateStop || !(stateIsDocument || stateIsWindow) {
        return;
      }
      if !isConversationPage {
        return;
      }
      if initializingHTMLDocument {
        return;
      }
      initializingHTMLDocument := true;
      shown := [];
      initializingHTMLDocument := false;
      listening := false;
      messageDisplayPending := false;
      pendingMessages := [];
      nextPendingMessageIndex := 0;
      pendingMessagesDisplayed := 0;
      appended, loaded := [], true;
    }

    method DestroyView()
      requires Valid()
      modifies this
      ensures Valid() && Abs() == Step(old(Abs()), Destroy)
    {
      if destroyed {
        return;
      }
      destroyed := true;
      messageDisplayPending := false;
      loaded := false;
    }
  }
}
