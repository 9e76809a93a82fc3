/**
 * The command handshake of the transport session, as functions of the bytes
 * the chip will answer: ready-waits that poll the status byte under a 16-bit
 * timer, the acknowledgement read, and the second ready-wait. A result of
 * None means the chip's transcript ends before the handshake does.
 */
module Handshake {
  import opened Pn532Header
  import opened Optional
  import opened CString

  /** How a ready-wait ended, and how many status bytes it read. */
  datatype Wait = Wait(ready: bool, polls: nat)

  /**
   * The polling loop of sendCommandCheckAck, entered with the uint16_t timer
   * at `timer`: each status byte that is not PN532_SPI_READY advances the
   * timer by 10 (when timeout != 0) and gives up once the timer exceeds
   * timeout.
   */
  function WaitFrom(status: seq<byte>, timer: uint16, timeout: uint16): (w: Option<Wait>)
    ensures w.Some? ==> 1 <= w.value.polls <= |status|
    decreases |status|
  {
    if status == [] then None
    else if status[0] == PN532_SPI_READY then Some(Wait(true, 1))
    else
      var next: uint16 := if timeout != 0 then (timer + 10) % 0x1_0000 else timer;
      if timeout != 0 && next > timeout then Some(Wait(false, 1))
      else match WaitFrom(status[1..], next, timeout)
        case None => None
        case Some(w) => Some(Wait(w.ready, w.polls + 1))
  }

  /** One ready-wait, with the timer reset to 0. */
  function ReadyWait(status: seq<byte>, timeout: uint16): Option<Wait>
  {
    WaitFrom(status, 0, timeout)
  }

  /** The status bytes of a wait are all not-ready except perhaps the last, which decides. */
  lemma {:induction false} WaitShape(status: seq<byte>, timer: uint16, timeout: uint16)
    requires WaitFrom(status, timer, timeout).Some?
    ensures var w := WaitFrom(status, timer, timeout).value;
      && (forall j :: 0 <= j < w.polls - 1 ==> status[j] != PN532_SPI_READY)
      && (w.ready <==> status[w.polls - 1] == PN532_SPI_READY)
  {
    if status[0] != PN532_SPI_READY {
      var next: uint16 := if timeout != 0 then (timer + 10) % 0x1_0000 else timer;
      if !(timeout != 0 && next > timeout) {
        WaitShape(status[1..], next, timeout);
      }
    }
  }

  /**
   * One step of the polling loop: a status byte that is not ready and does
   * not end the wait leaves the rest of the wait to the next byte.
   */
  lemma WaitStep(status: seq<byte>, timer: uint16, timeout: uint16, next: uint16)
    requires status != [] && status[0] != PN532_SPI_READY
    requires next == if timeout != 0 then (timer + 10) % 0x1_0000 else timer
    requires WaitFrom(status, timer, timeout).Some?
    ensures var w := WaitFrom(status, timer, timeout).value;
      (timeout != 0 && next > timeout) == (w == Wait(false, 1))
    ensures !(timeout != 0 && next > timeout) ==>
      var w := WaitFrom(status, timer, timeout).value;
      WaitFrom(status[1..], next, timeout) == Some(Wait(w.ready, w.polls - 1))
  {
  }

  /** The number of status polls after which a wait with this timeout gives up. */
  function Budget(timeout: uint16): nat
  {
    timeout / 10 + 1
  }

  /** WaitBudget for a wait entered with the timer at 10 * j. */
  lemma {:induction false} BudgetFrom(status: seq<byte>, j: nat, timeout: uint16)
    requires 1 <= timeout <= 65529 && 10 * j <= timeout
    ensures var w := WaitFrom(status, 10 * j, timeout);
      && (w.Some? && !w.value.ready ==> w.value.polls == Budget(timeout) - j)
      && (|status| >= Budget(timeout) - j &&
          (forall i :: 0 <= i < Budget(timeout) - j ==> status[i] != PN532_SPI_READY) ==>
            w == Some(Wait(false, Budget(timeout) - j)))
    decreases Budget(timeout) - j
  {
    if status != [] && status[0] != PN532_SPI_READY {
      assert (10 * j + 10) % 0x1_0000 == 10 * (j + 1);
      if 10 * (j + 1) <= timeout {
        BudgetFrom(status[1..], j + 1, timeout);
        if |status| >= Budget(timeout) - j && (forall i :: 0 <= i < Budget(timeout) - j ==> status[i] != PN532_SPI_READY) {
          assert forall i :: 0 <= i < Budget(timeout) - (j + 1) ==> status[1..][i] == status[i + 1];
        }
      }
    }
  }

  /**
   * With 1 <= timeout <= 65529 a wait that gives up has read exactly
   * timeout / 10 + 1 status bytes, and it gives up as soon as that many
   * consecutive bytes are not ready.
   */
  lemma WaitBudget(status: seq<byte>, timeout: uint16)
    requires 1 <= timeout <= 65529
    ensures var w := ReadyWait(status, timeout);
      && (w.Some? && !w.value.ready ==> w.value.polls == Budget(timeout))
      && (|status| >= Budget(timeout) &&
          (forall i :: 0 <= i < Budget(timeout) ==> status[i] != PN532_SPI_READY) ==>
            w == Some(Wait(false, Budget(timeout))))
  {
    BudgetFrom(status, 0, timeout);
  }

  /** WaitNeverGivesUp for a wait entered with an even timer. */
  lemma {:induction false} NoExpiryFrom(status: seq<byte>, timer: uint16, timeout: uint16)
    requires timeout == 0 || timeout >= 65534
    requires timer % 2 == 0
    ensures WaitFrom(status, timer, timeout).Some? ==> WaitFrom(status, timer, timeout).value.ready
    decreases |status|
  {
    if status != [] && status[0] != PN532_SPI_READY {
      var next: uint16 := if timeout != 0 then (timer + 10) % 0x1_0000 else timer;
      NoExpiryFrom(status[1..], next, timeout);
    }
  }

  /**
   * With timeout 0, or with a timeout of 65534 or more (the uint16_t timer
   * only takes even values and wraps around), a wait never gives up: it ends
   * only on a ready status.
   */
  lemma WaitNeverGivesUp(status: seq<byte>, timeout: uint16)
    requires timeout == 0 || timeout >= 65534
    ensures ReadyWait(status, timeout).Some? ==> ReadyWait(status, timeout).value.ready
  {
    NoExpiryFrom(status, 0, timeout);
  }

  /** Where a handshake ended. */
  datatype Outcome = Acked | FirstTimeout | AckMismatch | SecondTimeout

  /** A handshake: its outcome, the status bytes of each wait, and the ack bytes read (none if not reached). */
  datatype Exchange = Exchange(outcome: Outcome, polls1: nat, ack: seq<byte>, polls2: nat)

  /** The acknowledgement test of spi_readack(). */
  predicate AckOk(ack: seq<byte>)
    requires |ack| >= 6
  {
    StrNCmp(ack, PN532_ACK, 6) == 0
  }

  /**
   * The handshake after a command has been written: wait for ready, read the
   * 6 ack bytes (and test them when checkAck), wait for ready again with a
   * fresh timer. sendCommandCheckAck tests the ack; sendRawCommandCheckAck
   * does not.
   */
  function Transact(answer: seq<byte>, timeout: uint16, checkAck: bool): Option<Exchange>
  {
    match ReadyWait(answer, timeout)
    case None => None
    case Some(w1) =>
      if !w1.ready then Some(Exchange(FirstTimeout, w1.polls, [], 0))
      else if |answer| < w1.polls + 6 then None
      else
        var ack := answer[w1.polls..w1.polls + 6];
        if checkAck && !AckOk(ack) then Some(Exchange(AckMismatch, w1.polls, ack, 0))
        else match ReadyWait(answer[w1.polls + 6..], timeout)
          case None => None
          case Some(w2) => Some(Exchange(if w2.ready then Acked else SecondTimeout, w1.polls, ack, w2.polls))
  }

  /** How many answer bytes a handshake reads. */
  function Consumed(x: Exchange): nat
  {
    x.polls1 + |x.ack| + x.polls2
  }

  /** k status-read requests. */
  function StatusPolls(k: nat): seq<byte>
  {
    seq(k, _ => PN532_SPI_STATREAD)
  }

  /** One more status poll at the end of a transcript. */
  lemma OneMorePoll(s: seq<byte>, k: nat)
    ensures s + StatusPolls(k) + [PN532_SPI_STATREAD] == s + StatusPolls(k + 1)
  {
    assert StatusPolls(k) + [PN532_SPI_STATREAD] == StatusPolls(k + 1);
  }

  /** The SPI operation bytes the host sends during a handshake, one per SPI transaction. */
  function HostBytes(x: Exchange): seq<byte>
  {
    StatusPolls(x.polls1) + (if x.ack == [] then [] else [PN532_SPI_DATAREAD]) + StatusPolls(x.polls2)
  }

  /**
   * The handshake in terms of the answer: it is acknowledged exactly when the
   * first wait sees ready, the first ack byte is 0x00 (when tested), and the
   * second wait, with its own budget, sees ready. An ack failure stops before
   * the second wait; without the ack test the outcome is never AckMismatch.
   * The handshake reads no more than the answer holds.
   */
  lemma TransactOutcome(answer: seq<byte>, timeout: uint16, checkAck: bool)
    requires Transact(answer, timeout, checkAck).Some?
    ensures var x := Transact(answer, timeout, checkAck).value;
      var w1 := ReadyWait(answer, timeout).value;
      && Consumed(x) <= |answer|
      && x.polls1 == w1.polls
      && (x.outcome == FirstTimeout <==> !w1.ready)
      && (x.outcome != FirstTimeout ==> x.ack == answer[w1.polls..w1.polls + 6])
      && (x.outcome == AckMismatch <==> w1.ready && checkAck && answer[w1.polls] != 0x00)
      && (x.outcome == AckMismatch ==> x.polls2 == 0)
      && (x.outcome == Acked <==>
            w1.ready && (checkAck ==> answer[w1.polls] == 0x00)
            && ReadyWait(answer[w1.polls + 6..], timeout).value.ready)
  {
    var w1 := ReadyWait(answer, timeout).value;
    if w1.ready {
      AckTestOnlyReadsByteZero(answer[w1.polls..w1.polls + 6]);
    }
  }

  /** The result code of sendRawCommandCheckAck: 0xF1 when the first wait gives up, 0xF2 when the second does, 0 otherwise. */
  function RawCode(o: Outcome): byte
  {
    match o
    case FirstTimeout => 0xF1
    case SecondTimeout => 0xF2
    case _ => 0
  }

  /**
   * The untested handshake of sendRawCommandCheckAck returns 0 exactly when
   * both waits see ready, 0xF1 exactly when the first gives up and 0xF2
   * exactly when the second does; the ack bytes are read whenever the first
   * wait succeeds, whatever they hold.
   */
  lemma RawHandshakeCodes(answer: seq<byte>, timeout: uint16)
    requires Transact(answer, timeout, false).Some?
    ensures var x := Transact(answer, timeout, false).value;
      var w1 := ReadyWait(answer, timeout).value;
      && (RawCode(x.outcome) == 0xF1 <==> !w1.ready)
      && (RawCode(x.outcome) == 0xF2 <==> w1.ready && !ReadyWait(answer[w1.polls + 6..], timeout).value.ready)
      && (RawCode(x.outcome) == 0 <==> w1.ready && ReadyWait(answer[w1.polls + 6..], timeout).value.ready)
      && (w1.ready ==> x.ack == answer[w1.polls..w1.polls + 6])
  {
    TransactOutcome(answer, timeout, false);
  }
}
