/**
  The retransmission timer (3rdparty/boringssl/ssl/d1_lib.c; section 4.2.4.1 of RFC 6347): it
  starts at one second, doubles with every expiry up to a minute, and gives up after twelve.
 */
module DtlsTimer {
  import opened DtlsWire
  import opened DtlsReceiver
  import opened DtlsSender
  import opened DtlsFlight
  import opened DtlsRetransmit

  const MAX_TIMEOUTS: nat := 12  // DTLS1_MAX_TIMEOUTS
  const LONGEST: nat := 60
  const MICROS: nat := 1000000

  /** A struct timeval. */
  datatype Time = Time(sec: nat, usec: nat)

  predicate ValidTime(t: Time) { t.usec < MICROS }

  function Micros(t: Time): nat { t.sec * MICROS + t.usec }

  const ZERO := Time(0, 0)

  function Pow2(k: nat): nat { if k == 0 then 1 else 2 * Pow2(k - 1) }

  function Min(a: nat, b: nat): nat { if a <= b then a else b }

  /** Twice the duration, up to a minute, is what one more expiry makes of it. */
  lemma DoublingIsPow2(k: nat)
    ensures Min(2 * Min(Pow2(k), LONGEST), LONGEST) == Min(Pow2(k + 1), LONGEST)
  {
  }

  lemma {:induction false} Pow2Positive(k: nat)
    ensures Pow2(k) > 0
  {
    if k > 0 {
      Pow2Positive(k - 1);
    }
  }

  class Timer {
    var nextTimeout: Time
    var duration: nat
    var numTimeouts: nat
    ghost var expiries: nat          // since the timer was last stopped
    ghost var retransmissions: nat   // since the timer was last stopped

    predicate Running()
      reads this
    {
      nextTimeout != ZERO
    }

    /** After k expiries since the last stop the timer is armed for min(2^k, 60) seconds. */
    ghost predicate Valid()
      reads this
    {
      && ValidTime(nextTimeout)
      && (if Running() then duration == Min(Pow2(expiries), LONGEST) else expiries == 0)
      && expiries <= numTimeouts
      && retransmissions == Min(numTimeouts, MAX_TIMEOUTS)
    }

    constructor ()
      ensures Valid() && !Running() && numTimeouts == 0
    {
      nextTimeout, duration, numTimeouts := ZERO, 0, 0;
      expiries, retransmissions := 0, 0;
    }

    /** dtls1_start_timer */
    method Start(now: Time)
      requires Valid() && ValidTime(now)
      modifies this`nextTimeout, this`duration
      ensures Valid() && Running() && duration == Min(Pow2(expiries), LONGEST)
      ensures nextTimeout == Time(now.sec + duration, now.usec)
    {
      Pow2Positive(expiries);
      Rearm(now);
    }

    method Rearm(now: Time)
      requires ValidTime(now)
      modifies this`nextTimeout, this`duration
      ensures duration == if old(Running()) then old(duration) else 1
      ensures nextTimeout == Time(now.sec + duration, now.usec)
    {
      if nextTimeout.sec == 0 && nextTimeout.usec == 0 {
        duration := 1;
      }
      nextTimeout := now;
      nextTimeout := nextTimeout.(sec := nextTimeout.sec + duration);
    }

    /**
      DTLSv1_get_timeout: the time left, to the microsecond, except that less than 15 ms count as
      none; ok is false when no timer runs.
     */
    method GetTimeout(now: Time) returns (ok: bool, left: Time)
      requires ValidTime(nextTimeout) && ValidTime(now)
      ensures ok == Running()
      ensures ok ==> ValidTime(left)
      ensures ok ==> Micros(left) == if Micros(nextTimeout) < Micros(now) + 15000 then 0
                                     else Micros(nextTimeout) - Micros(now)
    {
      left := ZERO;
      if nextTimeout.sec == 0 && nextTimeout.usec == 0 {
        return false, left;
      }
      if nextTimeout.sec < now.sec || (nextTimeout.sec == now.sec && nextTimeout.usec <= now.usec) {
        return true, left;
      }
      var sec := nextTimeout.sec - now.sec;
      var usec := nextTimeout.usec - now.usec;
      if usec < 0 {
        sec := sec - 1;
        usec := usec + MICROS;
      }
      left := Time(sec, usec);
      if left.sec == 0 && left.usec < 15000 {
        left := ZERO;
      }
      ok := true;
    }

    /** dtls1_is_timer_expired */
    method IsExpired(now: Time) returns (expired: bool)
      requires ValidTime(nextTimeout) && ValidTime(now)
      ensures expired == (Running() && Micros(nextTimeout) < Micros(now) + 15000)
    {
      var ok, left := GetTimeout(now);
      expired := ok && left.sec == 0 && left.usec == 0;
    }

    /** dtls1_double_timeout */
    method Double(now: Time)
      requires ValidTime(now)
      modifies this`nextTimeout, this`duration
      ensures duration == if old(Running()) then Min(2 * old(duration), LONGEST) else 1
      ensures nextTimeout == Time(now.sec + duration, now.usec)
    {
      duration := duration * 2;
      if duration > LONGEST {
        duration := LONGEST;
      }
      Rearm(now);
    }

    /** dtls1_stop_timer; it clears the flight too. */
    method Stop(flight: Flight, w: Writer)
      requires flight.Valid(w)
      modifies this, flight`sentMessages, flight`sends, flight`first
      ensures Valid() && !Running() && numTimeouts == 0 && duration == 1 && expiries == 0 && retransmissions == 0
      ensures flight.Valid(w) && flight.sentMessages == []
    {
      numTimeouts := 0;
      nextTimeout := ZERO;
      duration := 1;
      expiries, retransmissions := 0, 0;
      flight.Clear(w);
    }

    /** dtls1_check_timeout_num */
    method CheckTimeoutNum() returns (ok: bool)
      modifies this`numTimeouts
      ensures numTimeouts == old(numTimeouts) + 1 && ok == (numTimeouts <= MAX_TIMEOUTS)
    {
      numTimeouts := numTimeouts + 1;
      ok := numTimeouts <= MAX_TIMEOUTS;
    }

    /** What a retransmission has put on the wire when it ends with ret. */
    ghost predicate Retransmitted(flight: Flight, initOff: nat, ret: int, out: seq<Record>)
      reads flight
      requires ValidItems(flight.sentMessages)
    {
      var q := flight.sentMessages;
      && (ret == 1 || ret == -1)
      && (ret == 1 ==> (Replays(q, out) <==> initOff == 0 || !HasMessage(q)))
      && (ret == 1 && initOff == 0 && Orderly(flight.sends, flight.first) && flight.first + |flight.sends| <= 0x8000 ==>
            q == Items(flight.sends, flight.first) && Replays(q, out))
      && (ret == -1 && initOff == 0 ==> exists n: nat :: ReplaysUntil(q, out, n))
    }

    /**
      DTLSv1_handle_timeout.  An expiry doubles the duration; the flight goes out again if no write
      had been left half-way, and nothing else does, unless there have been too many timeouts, in
      which case the handshake fails.
     */
    method HandleTimeout(now: Time, flight: Flight, w: Writer) returns (ret: int, ghost out: seq<Record>)
      requires Valid() && ValidTime(now) && flight.Valid(w) && w.CanRetransmit()
      modifies this, w
      ensures Valid() && flight.Valid(w) && w.CanRetransmit() && w.wire == old(w.wire) + out
      ensures var expired := old(Running()) && Micros(old(nextTimeout)) < Micros(now) + 15000;
              if !expired then
                ret == 0 && out == [] && unchanged(this) && unchanged(w)
              else
                && Running() && expiries == old(expiries) + 1 && numTimeouts == old(numTimeouts) + 1
                && nextTimeout == Time(now.sec + duration, now.usec)
                && (if numTimeouts > MAX_TIMEOUTS then
                      ret == -1 && out == [] && retransmissions == old(retransmissions) && unchanged(w)
                    else
                      && retransmissions == old(retransmissions) + 1
                      && Retransmitted(flight, old(w.initOff), ret, out)
                      && (ret == 1 ==> ReplaysFrom(flight.sentMessages, old(w.initOff), out))
                      && (old(w.Willing()) ==> ret == 1)
                      && (flight.sentMessages != [] && flight.sentMessages[0].content.Handshake?
                          && w.answers(old(w.asked)) <= 0 ==>
                            && ret == -1 && w.asked == old(w.asked) + 2
                            && w.initOff == if old(w.initOff) == 0 then HEADER_LENGTH else old(w.initOff)))
    {
      hide Replays, ReplaysFrom, ReplaysUntil, ReplaysFromUntil, HasMessage, Left, Orderly, Items;
      out := [];
      var expired := IsExpired(now);
      if !expired {
        return 0, out;
      }
      DoublingIsPow2(expiries);
      Pow2Positive(expiries);
      Double(now);
      expiries := expiries + 1;
      var ok := CheckTimeoutNum();
      if !ok {
        return -1, out;
      }
      retransmissions := retransmissions + 1;
      Start(now);
      ret, out := flight.Retransmit(w);
    }

    /**
      The answer of dtls1_read_bytes to the first fragment of a repeated Finished: it counts as a
      timeout, and the last flight goes out again in the same way.
     */
    method HandlePeerFinished(flight: Flight, w: Writer) returns (ok: bool, ghost out: seq<Record>)
      requires Valid() && flight.Valid(w) && w.CanRetransmit()
      modifies this`numTimeouts, this`retransmissions, w
      ensures Valid() && flight.Valid(w) && w.CanRetransmit() && w.wire == old(w.wire) + out
      ensures numTimeouts == old(numTimeouts) + 1 && ok == (numTimeouts <= MAX_TIMEOUTS)
      ensures if ok then exists ret: int :: Retransmitted(flight, old(w.initOff), ret, out)
              else out == [] && unchanged(w)
    {
      hide Replays, ReplaysFrom, ReplaysUntil, ReplaysFromUntil, HasMessage, Left, Orderly, Items;
      out := [];
      ok := CheckTimeoutNum();
      if ok {
        retransmissions := retransmissions + 1;
        var ret;
        ret, out := flight.Retransmit(w);
        assert Retransmitted(flight, old(w.initOff), ret, out);
      }
    }
  }

  /** A timer that has just expired. */
  method StartAndExpire() returns (timer: Timer, now: Time)
    ensures timer.Valid() && timer.Running() && timer.numTimeouts == 0 && fresh(timer)
    ensures ValidTime(now) && timer.nextTimeout == now
  {
    timer := new Timer();
    timer.Start(ZERO);
    now := timer.nextTimeout;
  }

  /** An expiry breaks off: a flight of one message, and a transport that refuses the first request only. */
  method BreakOff(m: Message, mtu: nat, overhead: nat) returns (timer: Timer, flight: Flight, w: Writer, first: int)
    requires |m.body| < LIMIT24 && mtu > overhead + HEADER_LENGTH
    ensures fresh(timer) && fresh(flight) && fresh(w) && timer.Valid() && timer.Running() && timer.numTimeouts == 1
    ensures flight.Valid(w) && flight.sentMessages == [Item(0, Handshake(m, 0), 0)]
    ensures first == -1 && w.initOff == HEADER_LENGTH && w.Willing()
  {
    w := new Writer(mtu, overhead, i => if i == 0 then -1 else 1);
    flight := new Flight();
    var seqNo := flight.BufferMessage(m, w);
    assert flight.sentMessages == [Item(0, Handshake(m, 0), 0)];
    hide Timer.Retransmitted, ReplaysFrom, Flight.Valid;
    var now;
    timer, now := StartAndExpire();
    ghost var out;
    first, out := timer.HandleTimeout(now, flight, w);
  }

  /**
    The input at which the promise fails: the first expiry breaks off, the second succeeds, but what
    that puts on the wire is not the message, and no receiver takes its last fragment.
   */
  method BreakOffAndRetry(m: Message, mtu: nat, overhead: nat, s: State, maxLen: nat)
    returns (first: int, second: int, ghost out: seq<Record>)
    requires |m.body| + HEADER_LENGTH <= LIMIT24 && mtu > overhead + HEADER_LENGTH && AllSized(s)
    ensures first == -1 && second == 1
    ensures !Replays([Item(0, Handshake(m, 0), 0)], out)
    ensures exists j :: 0 <= j < |out| && RefusedBy(out[j], s, maxLen)
  {
    hide Replays, ReplaysFrom, ReplaysUntil, RefusedBy, Items, Queued, Orderly, AllSized;
    var timer, flight, w;
    timer, flight, w, first := BreakOff(m, mtu, overhead);
    second, out := timer.HandleTimeout(timer.nextTimeout, flight, w);
    assert flight.sentMessages[0].content.Handshake?;
    OverlongIsRefused(flight.sentMessages, HEADER_LENGTH, out, s, maxLen);
  }
}
