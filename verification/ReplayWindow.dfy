/**
 The 64-packet replay window of an authenticated session. A sequence is accepted if and only
 if it was never accepted before and lies above `highest - 64`, so no run accepts one twice.
 */
module ReplayWindow {
  import opened Words
  import opened Bitwise

  datatype Window = Window(highest: u64, bits: u64)

  datatype ReplayError = ReplayDetected(sequence: u64, windowBottom: u64)

  const FRESH := Window(0, 0)

  /** `window <<= diff; window |= 1` on a 64-bit word. */
  function ShiftedIn(bits: u64, diff: nat): u64 {
    Pow2Values();
    OrBound(Shl(bits, diff) % Pow2(64), 1, 64);
    Or(Shl(bits, diff) % Pow2(64), 1)
  }

  function Marked(bits: u64, diff: nat): u64
    requires diff < 64
  {
    Pow2Values();
    ShlIsMul(1, diff);
    Pow2Mono(diff + 1, 64);
    OrBound(bits, Shl(1, diff), 64);
    Or(bits, Shl(1, diff))
  }

  function Check(w: Window, sequence: u64): (Window, Result<(), ReplayError>) {
    if w.bits == 0 && w.highest == 0 then
      (Window(sequence, 1), Ok(()))
    else if sequence > w.highest then
      var diff := sequence - w.highest;
      (Window(sequence, if diff < 64 then ShiftedIn(w.bits, diff) else 1), Ok(()))
    else
      var diff := w.highest - sequence;
      if diff >= 64 || And(w.bits, Shl(1, diff)) != 0 then
        (w, Err(ReplayDetected(sequence, Max(w.highest - 63, 0))))
      else
        (w.(bits := Marked(w.bits, diff)), Ok(()))
  }

  /** `w` records exactly the accepted sequences of the 64 numbers ending at the highest. */
  ghost predicate Tracks(w: Window, accepted: set<u64>) {
    if accepted == {} then w == FRESH
    else
      && w.highest in accepted
      && (forall s :: s in accepted ==> s <= w.highest)
      && (forall k: nat :: k < 64 ==> (Bit(w.bits, k) <==> w.highest - k in accepted))
  }

  ghost predicate Acceptable(w: Window, accepted: set<u64>, sequence: u64) {
    accepted == {} || (sequence !in accepted && sequence > w.highest - 64)
  }

  lemma ShiftedInBits(bits: u64, diff: nat, k: nat)
    requires 0 < diff && k < 64
    ensures Bit(ShiftedIn(bits, diff), k) <==> (k == 0 || (k >= diff && Bit(bits, k - diff)))
  {
    BitOr(Shl(bits, diff) % Pow2(64), 1, k);
    BitTrunc(Shl(bits, diff), 64, k);
    BitShl(bits, diff, k);
    BitPow2(0, k);
  }

  lemma MarkedBits(bits: u64, diff: nat, k: nat)
    requires diff < 64 && k < 64
    ensures Bit(Marked(bits, diff), k) <==> (k == diff || Bit(bits, k))
  {
    BitOr(bits, Shl(1, diff), k);
    ShlIsMul(1, diff);
    BitPow2(diff, k);
  }

  /** A sequence is accepted exactly when it is fresh and in the window; the record stays exact. */
  lemma CheckIsExact(w: Window, accepted: set<u64>, sequence: u64)
    requires Tracks(w, accepted)
    ensures var (w', r) := Check(w, sequence);
            && (r.Ok? <==> Acceptable(w, accepted, sequence))
            && Tracks(w', if r.Ok? then accepted + {sequence} else accepted)
            && (r.Err? ==> w' == w && r.error == ReplayDetected(sequence, Max(w.highest - 63, 0)))
  {
    hide And, Or, Shl, ShiftedIn, Marked;
    var (w', r) := Check(w, sequence);
    if accepted == {} {
      forall k: nat | k < 64
        ensures Bit(w'.bits, k) <==> w'.highest - k in {sequence}
      {
        BitPow2(0, k);
      }
    } else {
      assert Bit(w.bits, 0);
      if sequence > w.highest {
        var diff := sequence - w.highest;
        forall k: nat | k < 64
          ensures Bit(w'.bits, k) <==> w'.highest - k in accepted + {sequence}
        {
          if diff < 64 { ShiftedInBits(w.bits, diff, k); } else { BitPow2(0, k); }
        }
      } else {
        var diff := w.highest - sequence;
        SingleBitTest(w.bits, diff);
        if r.Ok? {
          forall k: nat | k < 64
            ensures Bit(w'.bits, k) <==> w'.highest - k in accepted + {sequence}
          {
            MarkedBits(w.bits, diff, k);
          }
        }
      }
    }
  }

  /** The window after a run of packets, and the sequences it accepted in order. */
  function Run(arrivals: seq<u64>): (Window, seq<u64>) {
    if arrivals == [] then (FRESH, [])
    else
      var last := arrivals[|arrivals| - 1];
      var (w, taken) := Run(arrivals[..|arrivals| - 1]);
      var (w', r) := Check(w, last);
      (w', if r.Ok? then taken + [last] else taken)
  }

  ghost predicate Distinct(s: seq<u64>) {
    forall i, j :: 0 <= i < j < |s| ==> s[i] != s[j]
  }

  lemma ElementsSnoc(s: seq<u64>, x: u64)
    ensures Elements(s + [x]) == Elements(s) + {x}
    ensures Distinct(s) && x !in Elements(s) ==> Distinct(s + [x])
  {
  }

  /** No run, whatever its packets, accepts the same sequence twice. */
  lemma {:induction false} NeverAcceptedTwice(arrivals: seq<u64>)
    ensures var (w, taken) := Run(arrivals); Distinct(taken) && Tracks(w, Elements(taken))
  {
    if arrivals != [] {
      var last := arrivals[|arrivals| - 1];
      NeverAcceptedTwice(arrivals[..|arrivals| - 1]);
      var (w, taken) := Run(arrivals[..|arrivals| - 1]);
      CheckIsExact(w, Elements(taken), last);
      ElementsSnoc(taken, last);
    }
  }

  /** The two fields of the source's struct, updated in place. */
  class Guard {
    var highestSequence: u64
    var window: u64

    function State(): Window
      reads this
    {
      Window(highestSequence, window)
    }

    constructor ()
      ensures State() == FRESH
    {
      highestSequence, window := 0, 0;
    }

    method CheckAndUpdate(sequence: u64) returns (r: Result<(), ReplayError>)
      modifies this
      ensures (State(), r) == Check(old(State()), sequence)
    {
      if window == 0 && highestSequence == 0 {
        highestSequence, window := sequence, 1;
        return Ok(());
      }
      if sequence > highestSequence {
        var diff := sequence - highestSequence;
        if diff < 64 {
          window := ShiftedIn(window, diff);
        } else {
          window := 1;
        }
        highestSequence := sequence;
        return Ok(());
      }
      var diff := highestSequence - sequence;
      if diff >= 64 {
        return Err(ReplayDetected(sequence, Max(highestSequence - 63, 0)));
      }
      var mask := Shl(1, diff);
      if And(window, mask) != 0 {
        return Err(ReplayDetected(sequence, Max(highestSequence - 63, 0)));
      }
      window := Marked(window, diff);
      r := Ok(());
    }
  }
}
