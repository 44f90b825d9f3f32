/**
 The packet sequencer of the unreliable stream, whose `(highest, bitfield)` pair is the
 acknowledgment header of every outgoing packet. The main result is that the pair is an
 exact history: bit k is set if and only if sequence `highest - 1 - k` has arrived.
 */
module AckHistory {
  import opened Words
  import opened Bitwise
  import opened SequenceNumbers

  datatype Sequencer = Sequencer(nextOutgoing: u16, highest: u16, bitfield: u32, hasAny: bool)

  const FRESH := Sequencer(0, 0, 0, false)

  function ShiftedBitfield(bitfield: u32, diff: nat): u32
    requires 0 < diff
  {
    Pow2Values();
    if diff < 32 then
      ShlIsMul(1, diff - 1);
      Pow2Mono(diff, 32);
      OrBound(Shl(bitfield, diff) % Pow2(32), Shl(1, diff - 1), 32);
      Or(Shl(bitfield, diff) % Pow2(32), Shl(1, diff - 1))
    else if diff == 32 then 0x8000_0000
    else 0
  }

  function MarkedBitfield(bitfield: u32, diff: nat): u32 {
    if 0 < diff <= 32 then
      Pow2Values();
      ShlIsMul(1, diff - 1);
      Pow2Mono(diff, 32);
      OrBound(bitfield, Shl(1, diff - 1), 32);
      Or(bitfield, Shl(1, diff - 1))
    else bitfield
  }

  /** One arrival: the new state, and whether the packet is newer than everything before it. */
  function Ingest(s: Sequencer, seqno: u16): (Sequencer, bool) {
    if !s.hasAny then
      (s.(hasAny := true, highest := seqno, bitfield := 0), true)
    else if IsNewer(seqno, s.highest) then
      var diff := WrappingSub(seqno, s.highest);
      (s.(highest := seqno, bitfield := ShiftedBitfield(s.bitfield, diff)), true)
    else
      var diff := WrappingSub(s.highest, seqno);
      (s.(bitfield := MarkedBitfield(s.bitfield, diff)), false)
  }

  /** `s` is the exact record of the unbounded sequence numbers in `received`, `h` the highest. */
  ghost predicate Tracks(s: Sequencer, h: int, received: set<int>) {
    if s.hasAny then
      && s.highest == Wire(h)
      && h in received
      && (forall i :: i in received ==> i <= h)
      && (forall k: nat :: k < 32 ==> (Bit(s.bitfield, k) <==> h - 1 - k in received))
    else received == {}
  }

  lemma ShiftedBits(bitfield: u32, diff: nat, k: nat)
    requires 0 < diff && k < 32
    ensures Bit(ShiftedBitfield(bitfield, diff), k) <==>
            (k == diff - 1 || (k >= diff && Bit(bitfield, k - diff)))
  {
    Pow2Values();
    if diff < 32 {
      BitOr(Shl(bitfield, diff) % Pow2(32), Shl(1, diff - 1), k);
      BitTrunc(Shl(bitfield, diff), 32, k);
      BitShl(bitfield, diff, k);
      ShlIsMul(1, diff - 1);
      BitPow2(diff - 1, k);
    } else if diff == 32 {
      assert Pow2(31) == 0x8000_0000;
      BitPow2(31, k);
    } else {
      BitZero(k);
    }
  }

  lemma MarkedBits(bitfield: u32, diff: nat, k: nat)
    requires k < 32
    ensures Bit(MarkedBitfield(bitfield, diff), k) <==> (k == diff - 1 || Bit(bitfield, k))
  {
    if 0 < diff <= 32 {
      BitOr(bitfield, Shl(1, diff - 1), k);
      ShlIsMul(1, diff - 1);
      BitPow2(diff - 1, k);
    }
  }

  lemma TracksFirst(s: Sequencer, i: int)
    ensures Tracks(s.(hasAny := true, highest := Wire(i), bitfield := 0), i, {i})
  {
    hide Bit, Wire;
    forall k: nat | k < 32
      ensures !Bit(0, k)
    {
      BitZero(k);
    }
  }

  lemma TracksNewer(s: Sequencer, h: int, received: set<int>, i: int)
    requires Tracks(s, h, received) && s.hasAny && i > h
    ensures Tracks(s.(highest := Wire(i), bitfield := ShiftedBitfield(s.bitfield, i - h)), i, received + {i})
  {
    hide Bit, ShiftedBitfield, Wire;
    var bitfield := ShiftedBitfield(s.bitfield, i - h);
    forall k: nat | k < 32
      ensures Bit(bitfield, k) <==> i - 1 - k in received + {i}
    {
      ShiftedBits(s.bitfield, i - h, k);
    }
  }

  lemma TracksOlder(s: Sequencer, h: int, received: set<int>, i: int)
    requires Tracks(s, h, received) && s.hasAny && i <= h
    ensures Tracks(s.(bitfield := MarkedBitfield(s.bitfield, h - i)), h, received + {i})
  {
    hide Bit, MarkedBitfield, Wire;
    var bitfield := MarkedBitfield(s.bitfield, h - i);
    forall k: nat | k < 32
      ensures Bit(bitfield, k) <==> h - 1 - k in received + {i}
    {
      MarkedBits(s.bitfield, h - i, k);
    }
  }

  /** One arrival within 2^15 of the highest keeps the history exact. */
  lemma IngestTracks(s: Sequencer, h: int, received: set<int>, i: int)
    requires Tracks(s, h, received)
    requires s.hasAny ==> Abs(i - h) < WINDOW
    ensures var (s', newest) := Ingest(s, Wire(i));
            && Tracks(s', if newest then i else h, received + {i})
            && (newest <==> forall j :: j in received ==> j < i)
            && s'.hasAny && s'.nextOutgoing == s.nextOutgoing
  {
    hide Bit, ShiftedBitfield, MarkedBitfield, Wire, IsNewer, WrappingSub;
    if s.hasAny {
      IsNewerIsGreater(i, h);
      IsNewerIsGreater(h, i);
      if i > h { TracksNewer(s, h, received, i); } else { TracksOlder(s, h, received, i); }
    } else {
      TracksFirst(s, i);
      assert received + {i} == {i};
    }
  }

  /** The state after a whole run of arrivals, oldest first. */
  function IngestAll(arrivals: seq<int>): Sequencer {
    if arrivals == [] then FRESH
    else Ingest(IngestAll(arrivals[..|arrivals| - 1]), Wire(arrivals[|arrivals| - 1])).0
  }

  function Highest(arrivals: seq<int>): int
    requires arrivals != []
  {
    var last := arrivals[|arrivals| - 1];
    if |arrivals| == 1 then last else Max(last, Highest(arrivals[..|arrivals| - 1]))
  }

  /** Every arrival is less than 2^15 away from the highest one before it. */
  predicate WithinWindow(arrivals: seq<int>) {
    |arrivals| <= 1
    || (WithinWindow(arrivals[..|arrivals| - 1])
        && Abs(arrivals[|arrivals| - 1] - Highest(arrivals[..|arrivals| - 1])) < WINDOW)
  }

  lemma {:induction false} RunTracks(arrivals: seq<int>)
    requires WithinWindow(arrivals) && arrivals != []
    ensures Tracks(IngestAll(arrivals), Highest(arrivals), Elements(arrivals))
    ensures IngestAll(arrivals).hasAny
  {
    var n := |arrivals| - 1;
    var prefix, last := arrivals[..n], arrivals[n];
    assert Elements(arrivals) == Elements(prefix) + {last} by { assert arrivals == prefix + [last]; }
    if n == 0 {
      IngestTracks(FRESH, 0, {}, last);
    } else {
      RunTracks(prefix);
      IngestTracks(IngestAll(prefix), Highest(prefix), Elements(prefix), last);
      assert Highest(prefix) in Elements(prefix);
    }
  }

  /** In every run the header is exact: which of the 32 sequences below the highest arrived. */
  lemma HistoryIsExact(arrivals: seq<int>)
    requires WithinWindow(arrivals) && arrivals != []
    ensures var s := IngestAll(arrivals); var h := Highest(arrivals);
            && s.hasAny && s.highest == Wire(h)
            && (forall k: nat :: k < 32 ==> (Bit(s.bitfield, k) <==> h - 1 - k in arrivals))
  {
    RunTracks(arrivals);
  }

  class UnreliableSequencer {
    var nextOutgoingSequence: u16
    var highestReceivedSequence: u16
    var receivedBitfield: u32
    var hasReceivedAny: bool

    function State(): Sequencer
      reads this
    {
      Sequencer(nextOutgoingSequence, highestReceivedSequence, receivedBitfield, hasReceivedAny)
    }

    constructor ()
      ensures State() == FRESH
    {
      nextOutgoingSequence, highestReceivedSequence := 0, 0;
      receivedBitfield, hasReceivedAny := 0, false;
    }

    method NextSequence() returns (seqno: u16)
      modifies this
      ensures seqno == old(nextOutgoingSequence)
      ensures State() == old(State()).(nextOutgoing := WrappingAdd(seqno, 1))
    {
      seqno := nextOutgoingSequence;
      nextOutgoingSequence := WrappingAdd(nextOutgoingSequence, 1);
    }

    method ProcessIncomingSequence(seqno: u16) returns (newest: bool)
      modifies this
      ensures (State(), newest) == Ingest(old(State()), seqno)
    {
      if !hasReceivedAny {
        hasReceivedAny := true;
        highestReceivedSequence := seqno;
        receivedBitfield := 0;
        return true;
      }
      if IsNewer(seqno, highestReceivedSequence) {
        var diff := WrappingSub(seqno, highestReceivedSequence);
        receivedBitfield := ShiftedBitfield(receivedBitfield, diff);
        highestReceivedSequence := seqno;
        newest := true;
      } else {
        var diff := WrappingSub(highestReceivedSequence, seqno);
        if 0 < diff <= 32 {
          receivedBitfield := MarkedBitfield(receivedBitfield, diff);
        }
        newest := false;
      }
    }
  }
}
