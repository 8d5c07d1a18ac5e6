/** The relay pipeline `processAddress` (index.js:80-140) and one tick of the
    monitoring loop (index.js:190-230). The browser and the webhook are outside
    collaborators: each relay attempt is told, as a parameter, which browser step
    (if any) throws and whether the webhook POST goes through. */
module Relay {
  import opened Wrappers
  import opened AddressExtractor
  import opened Dedup

  /** The browser steps of a relay, in the order `processAddress` awaits them. */
  datatype Step = ClearInput | TypeAddress | AwaitSendButton | ClickSend

  /** How the browser steps of one relay go: all of them complete, or one throws
      (and the later ones are never reached). */
  datatype StepOutcome = Completes | ThrowsAt(step: Step)

  /** Whether the webhook POST goes through. A failure is caught and logged inside
      `sendWebhookNotification` (index.js:65-77) and never reaches the relay. */
  datatype Delivery = Accepted | Rejected

  /** What the outside world does during one relay attempt. */
  datatype Effects = Effects(steps: StepOutcome, webhook: Delivery)

  /** The `channelNumber` label a relay is reported under: a watched channel, or the
      start-up test send. */
  datatype Source = Channel(number: nat) | StartupTest

  /** The webhook notification of a relay, without its wall-clock stamps: the
      address, its source, and whether the POST went through. */
  datatype Notification = Notification(address: string, source: Source, delivered: bool)

  /** The browser step `step` throws in this attempt. */
  predicate Throws(steps: StepOutcome, step: Step) {
    steps.ThrowsAt? && steps.step == step
  }

  /** A relay attempt submits and commits `address` exactly when it is not yet in the
      ledger and no browser step throws. */
  predicate Relays(entries: seq<string>, address: string, steps: StepOutcome) {
    address !in entries && steps.Completes?
  }

  /** The ledger after one `processAddress` call. */
  function Processed(entries: seq<string>, address: string, steps: StepOutcome): seq<string> {
    if Relays(entries, address, steps) then Recorded(entries, address) else entries
  }

  /** `processAddress(address, channelNumber, telegramPage)`: skip a duplicate; run
      clear, type, wait and click, giving up (and returning false) on the first
      that throws; post the notification, whose failure is swallowed; then commit
      the address to the ledger and return true. */
  method ProcessAddress(ledger: Ledger, address: string, source: Source, fx: Effects)
    returns (relayed: bool, notice: Option<Notification>)
    requires ledger.Valid()
    modifies ledger
    ensures ledger.Valid()
    ensures relayed <==> address !in old(ledger.entries) && fx.steps.Completes?
    ensures ledger.entries == Processed(old(ledger.entries), address, fx.steps)
    ensures notice == if relayed then Some(Notification(address, source, fx.webhook.Accepted?))
                      else None
  {
    var seen := ledger.Has(address);
    if seen {
      return false, None;
    }
    // The found-time stamp is a wall-clock read and is not modelled.
    if Throws(fx.steps, ClearInput) {
      return false, None;
    }
    if Throws(fx.steps, TypeAddress) {
      return false, None;
    }
    if Throws(fx.steps, AwaitSendButton) {
      return false, None;
    }
    if Throws(fx.steps, ClickSend) {
      return false, None;
    }
    notice := Some(Notification(address, source, fx.webhook.Accepted?));
    ledger.Record(address);
    relayed := true;
  }

  /** A relay attempt leaves the ledger valid; it commits the address in FIFO order
      when it relays, and changes nothing otherwise. */
  lemma ProcessedIsFifoCommit(entries: seq<string>, address: string, steps: StepOutcome)
    requires ValidEntries(entries)
    ensures ValidEntries(Processed(entries, address, steps))
    ensures !Relays(entries, address, steps) ==> Processed(entries, address, steps) == entries
    ensures Relays(entries, address, steps) ==>
      address in Processed(entries, address, steps)
      && (|entries| < MaxProcessedAddresses ==>
            Processed(entries, address, steps) == entries + [address])
      && (|entries| == MaxProcessedAddresses ==>
            Processed(entries, address, steps) == entries[1..] + [address])
  {
    RecordedValid(entries, address);
    RecordedIsFifo(entries, address);
  }

  /** Two `processAddress` calls with the same address relay it at most once, and
      together act like a single call with the first outcome that completes. */
  lemma SameAddressRelaysOnce(entries: seq<string>, address: string, s1: StepOutcome, s2: StepOutcome)
    requires ValidEntries(entries)
    ensures !(Relays(entries, address, s1)
              && Relays(Processed(entries, address, s1), address, s2))
    ensures Processed(Processed(entries, address, s1), address, s2)
         == Processed(entries, address, if s1.Completes? then s1 else s2)
  {
    RecordedValid(entries, address);
  }

  // ---------------------------------------------------------------------------
  // One tick of the monitoring loop

  /** The result of reading both channels' message lists with `Promise.all`: both
      lists, or a rejection that the loop's catch swallows. */
  datatype Poll = Polled(messages1: seq<string>, messages2: seq<string>) | PollFailed

  /** The ledger after a channel's candidate, if any, has gone through
      `processAddress`. */
  function AfterCandidate(entries: seq<string>, candidate: Option<string>, fx: Effects): seq<string> {
    if candidate.Some? then Processed(entries, candidate.value, fx.steps) else entries
  }

  /** The notification a channel's candidate produces, if it is relayed. */
  function NoticeFor(entries: seq<string>, candidate: Option<string>, source: Source, fx: Effects)
    : seq<Notification>
  {
    if candidate.Some? && Relays(entries, candidate.value, fx.steps)
    then [Notification(candidate.value, source, fx.webhook.Accepted?)]
    else []
  }

  /** The ledger after a tick: channel 1's candidate is handled to completion
      before channel 2's. */
  function AfterTick(entries: seq<string>, poll: Poll, fx1: Effects, fx2: Effects): seq<string> {
    match poll
    case PollFailed => entries
    case Polled(m1, m2) =>
      AfterCandidate(AfterCandidate(entries, Candidate(m1), fx1), Candidate(m2), fx2)
  }

  /** The notifications of a tick, in the order they are posted. */
  function TickNotices(entries: seq<string>, poll: Poll, fx1: Effects, fx2: Effects)
    : seq<Notification>
  {
    match poll
    case PollFailed => []
    case Polled(m1, m2) =>
      NoticeFor(entries, Candidate(m1), Channel(1), fx1)
      + NoticeFor(AfterCandidate(entries, Candidate(m1), fx1), Candidate(m2), Channel(2), fx2)
  }

  /** One pass of the `while (true)` body: read both channels, then extract and
      relay channel 1's candidate, then channel 2's. Returns the notifications
      posted. */
  method Tick(ledger: Ledger, poll: Poll, fx1: Effects, fx2: Effects)
    returns (notices: seq<Notification>)
    requires ledger.Valid()
    modifies ledger
    ensures ledger.Valid()
    ensures ledger.entries == AfterTick(old(ledger.entries), poll, fx1, fx2)
    ensures notices == TickNotices(old(ledger.entries), poll, fx1, fx2)
  {
    notices := [];
    if poll.PollFailed? {
      return;
    }
    var candidate1 := Candidate(poll.messages1);
    if candidate1.Some? {
      var relayed1, notice1 := ProcessAddress(ledger, candidate1.value, Channel(1), fx1);
      if notice1.Some? {
        notices := notices + [notice1.value];
      }
    }
    var candidate2 := Candidate(poll.messages2);
    if candidate2.Some? {
      var relayed2, notice2 := ProcessAddress(ledger, candidate2.value, Channel(2), fx2);
      if notice2.Some? {
        notices := notices + [notice2.value];
      }
    }
  }

  /** The same address newest on both channels in one tick is relayed and
      notified at most once. */
  lemma SharedCandidateRelaysOnce(entries: seq<string>, poll: Poll, fx1: Effects, fx2: Effects)
    requires ValidEntries(entries)
    requires poll.Polled? && Candidate(poll.messages1) == Candidate(poll.messages2)
    ensures |TickNotices(entries, poll, fx1, fx2)| <= 1
  {
    var c := Candidate(poll.messages1);
    if c.Some? {
      SameAddressRelaysOnce(entries, c.value, fx1.steps, fx2.steps);
    }
  }

  /** A tick keeps the ledger valid, and every address it notifies about is in the
      ledger at the end of the tick (channel 2's commit never evicts channel 1's). */
  lemma TickNoticesAreRecorded(entries: seq<string>, poll: Poll, fx1: Effects, fx2: Effects)
    requires ValidEntries(entries)
    ensures ValidEntries(AfterTick(entries, poll, fx1, fx2))
    ensures forall n :: n in TickNotices(entries, poll, fx1, fx2) ==>
      n.address in AfterTick(entries, poll, fx1, fx2)
  {
    if poll.Polled? {
      var c1, c2 := Candidate(poll.messages1), Candidate(poll.messages2);
      var e1 := AfterCandidate(entries, c1, fx1);
      if c1.Some? {
        ProcessedIsFifoCommit(entries, c1.value, fx1.steps);
      }
      if c2.Some? {
        ProcessedIsFifoCommit(e1, c2.value, fx2.steps);
        if c1.Some? && Relays(entries, c1.value, fx1.steps) && Relays(e1, c2.value, fx2.steps) {
          assert e1[|e1| - 1] == c1.value;
          if |e1| == MaxProcessedAddresses {
            assert (e1[1..] + [c2.value])[|e1| - 2] == c1.value;
          }
        }
      }
    }
  }

  /** A tick whose reads fail, or whose channels yield no candidate (an empty list,
      a reply, no address in the newest message), relays nothing. */
  lemma QuietTickChangesNothing(entries: seq<string>, poll: Poll, fx1: Effects, fx2: Effects)
    requires poll.PollFailed?
      || (Candidate(poll.messages1).None? && Candidate(poll.messages2).None?)
    ensures AfterTick(entries, poll, fx1, fx2) == entries
    ensures TickNotices(entries, poll, fx1, fx2) == []
  {
  }
}
