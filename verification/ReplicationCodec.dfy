/**
 The replication messages as the writer and reader produce and consume them, one field at a
 time, with every early return. A write leaves a prefix of the message's bit string, the whole
 of it exactly when it fits; a read agrees with the decoder, error and cursor included.
 */
module ReplicationCodec {
  import opened Words
  import opened Bitwise
  import opened BitStrings
  import opened BitStream
  import opened Quantization
  import opened DeltaTransform
  import opened WireCodec

  // ----- What a write leaves -----

  /** A message is written piece by piece; a piece goes in whole or not at all. */
  type Pieces = seq<seq<bool>>

  function Flatten(pieces: Pieces): seq<bool> {
    if pieces == [] then [] else pieces[0] + Flatten(pieces[1..])
  }

  datatype Outcome = Outcome(written: nat, error: Option<BitstreamError>)

  /** The pieces that fit into `room` bits one after the other, and the error at the first that does not. */
  function OutcomeOf(pieces: Pieces, room: nat): (o: Outcome)
    ensures o.written <= room && o.written <= |Flatten(pieces)|
    ensures o.error.None? <==> |Flatten(pieces)| <= room
    ensures o.error.None? ==> o.written == |Flatten(pieces)|
  {
    if pieces == [] then Outcome(0, None)
    else if |pieces[0]| > room then Outcome(0, Some(BufferOverflow(|pieces[0]|, room)))
    else
      var rest := OutcomeOf(pieces[1..], room - |pieces[0]|);
      Outcome(|pieces[0]| + rest.written, rest.error)
  }

  lemma {:induction false} FlattenAppend(x: Pieces, y: Pieces)
    ensures Flatten(x + y) == Flatten(x) + Flatten(y)
  {
    if x == [] {
      assert x + y == y;
    } else {
      hide Flatten;
      FlattenStep(x);
      FlattenStep(x + y);
      FlattenAppend(x[1..], y);
      assert (x + y)[0] == x[0] && (x + y)[1..] == x[1..] + y;
      Regroup(x[0], Flatten(x[1..]), Flatten(y));
    }
  }

  lemma Regroup(a: seq<bool>, b: seq<bool>, c: seq<bool>)
    ensures (a + b) + c == a + (b + c)
  {
  }

  lemma FlattenStep(x: Pieces)
    requires x != []
    ensures Flatten(x) == x[0] + Flatten(x[1..])
  {
  }

  lemma {:induction false} OutcomeAppend(x: Pieces, y: Pieces, room: nat)
    ensures var first := OutcomeOf(x, room);
            OutcomeOf(x + y, room) ==
            if first.error.Some? then first
            else var second := OutcomeOf(y, room - first.written);
                 Outcome(first.written + second.written, second.error)
  {
    hide Flatten, OutcomeOf;
    if x == [] {
      assert x + y == y;
      OutcomeOfNone(room);
    } else {
      OutcomeStep(x, room);
      OutcomeStep(x + y, room);
      assert (x + y)[0] == x[0] && (x + y)[1..] == x[1..] + y;
      if |x[0]| <= room { OutcomeAppend(x[1..], y, room - |x[0]|); }
    }
  }

  lemma OutcomeOfNone(room: nat)
    ensures OutcomeOf([], room) == Outcome(0, None)
  {
  }

  lemma OutcomeStep(x: Pieces, room: nat)
    requires x != []
    ensures OutcomeOf(x, room) ==
            if |x[0]| > room then Outcome(0, Some(BufferOverflow(|x[0]|, room)))
            else var rest := OutcomeOf(x[1..], room - |x[0]|); Outcome(|x[0]| + rest.written, rest.error)
  {
    hide Flatten;
  }

  /** A write stops before the first piece that does not fit; its error says how large that was and what was left. */
  lemma {:induction false} StopsAtFirstMisfit(pieces: Pieces, room: nat)
    ensures var o := OutcomeOf(pieces, room);
            o.error.Some? ==>
              exists k: nat :: && k < |pieces| && o.written == |Flatten(pieces[..k])|
                               && o.error == Some(BufferOverflow(|pieces[k]|, room - o.written))
                               && |pieces[k]| > room - o.written
  {
    hide Flatten, OutcomeOf;
    var o := OutcomeOf(pieces, room);
    if pieces == [] {
      OutcomeOfNone(room);
    } else {
      OutcomeStep(pieces, room);
      if |pieces[0]| > room {
        FlattenNone();
        assert pieces[..0] == [];
      } else {
        StopsAtFirstMisfit(pieces[1..], room - |pieces[0]|);
        if o.error.Some? {
          var rest := OutcomeOf(pieces[1..], room - |pieces[0]|);
          var k: nat :| k < |pieces[1..]| && rest.written == |Flatten(pieces[1..][..k])|
                        && rest.error == Some(BufferOverflow(|pieces[1..][k]|, room - |pieces[0]| - rest.written))
                        && |pieces[1..][k]| > room - |pieces[0]| - rest.written;
          FlattenStep(pieces[..k + 1]);
          assert pieces[..k + 1][0] == pieces[0] && pieces[..k + 1][1..] == pieces[1..][..k];
          assert pieces[1..][k] == pieces[k + 1];
        }
      }
    }
  }

  lemma FlattenNone()
    ensures Flatten([]) == []
  {
  }

  function ErrorOf<T>(r: Result<T, BitstreamError>): Option<BitstreamError> {
    match r case Ok(_) => None case Err(e) => Some(e)
  }

  lemma ErrorIs<T>(r: Result<T, BitstreamError>)
    ensures ErrorOf(r) == if r.Ok? then None else Some(r.error)
  {
  }

  /** A write of the pieces at `off` ended at `next` with `error`, as the room allows and no bit further. */
  ghost predicate Wrote(before: seq<bool>, after: seq<bool>, off: nat, next: nat, pieces: Pieces,
                        error: Option<BitstreamError>) {
    && off <= |before|
    && var o := OutcomeOf(pieces, |before| - off);
       && next == off + o.written && error == o.error
       && Overwrites(before, after, off, Flatten(pieces)[..o.written])
  }

  lemma OnePiece(x: seq<bool>)
    ensures Flatten([x]) == x
  {
    assert x + [] == x;
  }

  lemma WroteWhole(before: seq<bool>, after: seq<bool>, off: nat, x: seq<bool>)
    requires Overwrites(before, after, off, x)
    ensures Wrote(before, after, off, off + |x|, [x], None)
  {
    OnePiece(x);
    assert OutcomeOf([x], |before| - off) == Outcome(|x|, None);
    assert x[..|x|] == x;
  }

  lemma WroteNothing(before: seq<bool>, off: nat, x: seq<bool>)
    requires off <= |before| < off + |x|
    ensures Wrote(before, before, off, off, [x], Some(BufferOverflow(|x|, |before| - off)))
  {
    OnePiece(x);
    OverwritesAt(before, before, off, []);
    assert x[..0] == [];
  }

  lemma WroteNoPieces(before: seq<bool>, off: nat)
    requires off <= |before|
    ensures Wrote(before, before, off, off, [], None)
  {
    OverwritesAt(before, before, off, []);
  }

  /** A complete write followed by another. */
  lemma WroteThen(a: seq<bool>, b: seq<bool>, c: seq<bool>, off: nat, middle: nat, next: nat,
                  x: Pieces, y: Pieces, error: Option<BitstreamError>)
    requires Wrote(a, b, off, middle, x, None) && Wrote(b, c, middle, next, y, error)
    ensures Wrote(a, c, off, next, x + y, error)
  {
    hide Flatten, OutcomeOf;
    FlattenAppend(x, y);
    OutcomeAppend(x, y, |a| - off);
    var fx, fy, n := Flatten(x), Flatten(y), OutcomeOf(y, |b| - middle).written;
    assert fx[..middle - off] == fx;
    OverwritesCompose(a, b, c, off, fx, fy[..n]);
    assert fx + fy[..n] == (fx + fy)[..|fx| + n];
  }

  /** A write that ran out of room stays one when more was to follow. */
  lemma WroteNoMore(a: seq<bool>, b: seq<bool>, off: nat, next: nat, x: Pieces, y: Pieces, error: BitstreamError)
    requires Wrote(a, b, off, next, x, Some(error))
    ensures Wrote(a, b, off, next, x + y, Some(error))
  {
    hide Flatten, OutcomeOf;
    FlattenAppend(x, y);
    OutcomeAppend(x, y, |a| - off);
    assert (Flatten(x) + Flatten(y))[..next - off] == Flatten(x)[..next - off];
  }

  /** The next pieces x of a message `all`, of which `done` is written and y is still to come. */
  lemma WroteNext(a: seq<bool>, b: seq<bool>, c: seq<bool>, off: nat, here: nat, next: nat,
                  done: Pieces, x: Pieces, y: Pieces, all: Pieces, error: Option<BitstreamError>)
    requires Wrote(a, b, off, here, done, None) && Wrote(b, c, here, next, x, error)
    requires done + (x + y) == all
    ensures error.None? ==> Wrote(a, c, off, next, done + x, None) && (done + x) + y == all
    ensures error.Some? ==> Wrote(a, c, off, next, all, error)
  {
    hide Wrote;
    WroteThen(a, b, c, off, here, next, done, x, error);
    assert (done + x) + y == done + (x + y);
    if error.Some? { WroteNoMore(a, c, off, next, done + x, y, error.value); }
  }

  // ----- The pieces of each message -----

  /** The bits of a list of fields, up to the first that is too wide for a word. */
  function FieldPieces(fields: seq<(u64, nat)>): Pieces {
    if fields == [] || fields[0].1 > 64 then []
    else [ToBits(fields[0].0, fields[0].1)] + FieldPieces(fields[1..])
  }

  /** The error of the first field that is too wide, if there is one. */
  function TooWide(fields: seq<(u64, nat)>): (error: Option<BitstreamError>)
    ensures error.None? <==> forall i :: 0 <= i < |fields| ==> fields[i].1 <= 64
  {
    if fields == [] then None
    else if fields[0].1 > 64 then Some(InvalidBitWidth(fields[0].1))
    else TooWide(fields[1..])
  }

  /** The error names the width of the first field that is too wide. */
  lemma {:induction false} TooWideIs(fields: seq<(u64, nat)>, k: nat)
    requires k < |fields| && fields[k].1 > 64 && forall j :: 0 <= j < k ==> fields[j].1 <= 64
    ensures TooWide(fields) == Some(InvalidBitWidth(fields[k].1)) && |FieldPieces(fields)| == k
  {
    if k > 0 { TooWideIs(fields[1..], k - 1); }
  }

  /** Field by field, up to the first that does not fit or is too wide. */
  ghost predicate WroteFields(before: seq<bool>, after: seq<bool>, off: nat, next: nat,
                              fields: seq<(u64, nat)>, error: Option<BitstreamError>) {
    && off <= |before|
    && var fits := OutcomeOf(FieldPieces(fields), |before| - off).error;
       && Wrote(before, after, off, next, FieldPieces(fields), fits)
       && error == if fits.None? then TooWide(fields) else fits
  }

  lemma WroteAllFields(before: seq<bool>, after: seq<bool>, off: nat, next: nat,
                       fields: seq<(u64, nat)>, fits: Option<BitstreamError>)
    requires Wrote(before, after, off, next, FieldPieces(fields), fits)
    ensures WroteFields(before, after, off, next, fields, if fits.None? then TooWide(fields) else fits)
  {
    hide FieldPieces, TooWide, Flatten, OutcomeOf, Overwrites;
  }

  lemma {:induction false} FieldPiecesFlatten(fields: seq<(u64, nat)>)
    requires TooWide(fields).None?
    ensures Flatten(FieldPieces(fields)) == EncodeFields(fields)
  {
    if fields != [] {
      FieldPiecesFlatten(fields[1..]);
      assert FieldPieces(fields)[1..] == FieldPieces(fields[1..]);
    }
  }

  function VarintPieces(v: nat): Pieces {
    Pow2Small();
    var low, rest := Low(v, 7), High(v, 7);
    if rest == 0 then [ToBits(low, 8)] else [ToBits(Join(low, 7, 1), 8)] + VarintPieces(rest)
  }

  lemma {:induction false} VarintPiecesFlatten(v: nat)
    ensures Flatten(VarintPieces(v)) == BytesToBits(VarintBytes(v))
    ensures |VarintPieces(v)| == |VarintBytes(v)|
  {
    VarintUnfold(v);
    hide Low, High, Join, ToBits, BytesToBits, VarintBytes;
    var rest, first := High(v, 7), VarintPieces(v)[0];
    if rest == 0 {
      OnePiece(first);
    } else {
      VarintPiecesFlatten(rest);
      assert VarintPieces(v)[1..] == VarintPieces(rest);
    }
  }

  lemma VarintUnfold(v: nat)
    ensures var low, rest := Low(v, 7), High(v, 7);
            low < Pow2(7) && low < 128
            && BytesToBits(VarintBytes(v)) == if rest == 0 then ToBits(low, 8)
                                              else ToBits(Join(low, 7, 1), 8) + BytesToBits(VarintBytes(rest))
    ensures |VarintBytes(v)| == if High(v, 7) == 0 then 1 else 1 + |VarintBytes(High(v, 7))|
    ensures Join(Low(v, 7), 7, 1) < 256 && High(v, 7) <= v && (v > 0 ==> High(v, 7) < v)
  {
    hide Join, Low, High, ToBits;
    Pow2Small();
    var b := VarintBytes(v);
    if High(v, 7) == 0 {
      assert BytesToBits(b) == ToBits(b[0], 8) + BytesToBits(b[1..]);
    } else {
      assert b[1..] == VarintBytes(High(v, 7));
      assert BytesToBits(b) == ToBits(b[0], 8) + BytesToBits(b[1..]);
    }
  }

  /** What is left of a varint once a byte is written. */
  ghost function VarintAfter(rest: nat): Pieces {
    if rest == 0 then [] else VarintPieces(rest)
  }

  lemma VarintPiecesUnfold(v: nat)
    ensures var low, rest := Low(v, 7), High(v, 7);
            && low < Pow2(7) && low < 128 && Join(low, 7, 1) < 256
            && rest <= v && (v > 0 ==> rest < v)
            && VarintPieces(v) == [ToBits(if rest == 0 then low else Join(low, 7, 1), 8)] + VarintAfter(rest)
            && (rest == 0 ==> VarintAfter(rest) == []) && (rest > 0 ==> VarintAfter(rest) == VarintPieces(rest))
  {
    VarintUnfold(v);
    hide Low, High, Join, ToBits;
  }

  /** A delta after its tag: four fields, or the packed bytes in one piece. */
  function DeltaRest(d: Delta): Pieces {
    match d
    case Stationary => []
    case Small(dx, dz, dy, dyaw) =>
      var (a, b, c, e) := SmallWire(dx, dz, dy, dyaw);
      [ToBits(a, 4), ToBits(b, 4), ToBits(c, 3), ToBits(e, 3)]
    case Medium(dx, dz, dy, yaw) =>
      [ToBits(Biased(dy, 32, 6), 6), ToBits(dx % 256, 8), ToBits(dz % 256, 8), ToBits(yaw, 8)]
    case Full(coord, yaw, flags) => [BytesToBits(PackTactical(coord, yaw, flags))]
  }

  function DeltaPieces(d: Delta): Pieces { [ToBits(DeltaTag(d), 2)] + DeltaRest(d) }

  lemma FourPiecesFlatten(x: seq<bool>, y: seq<bool>, z: seq<bool>, w: seq<bool>)
    ensures Flatten([x, y, z, w]) == x + (y + (z + w))
  {
    assert [x, y, z, w][1..] == [y, z, w] && [y, z, w][1..] == [z, w] && [z, w][1..] == [w];
    FlattenStep([x, y, z, w]);
    FlattenStep([y, z, w]);
    FlattenStep([z, w]);
    OnePiece(w);
    hide Flatten;
  }

  lemma DeltaPiecesFlatten(d: Delta)
    ensures Flatten(DeltaPieces(d)) == EncodeDelta(d)
  {
    hide ToBits, BytesToBits, Biased, PackTactical;
    assert DeltaPieces(d)[1..] == DeltaRest(d);
    match d {
      case Stationary =>
      case Small(dx, dz, dy, dyaw) =>
        var (a, b, c, e) := SmallWire(dx, dz, dy, dyaw);
        FourPiecesFlatten(ToBits(a, 4), ToBits(b, 4), ToBits(c, 3), ToBits(e, 3));
      case Medium(dx, dz, dy, yaw) =>
        FourPiecesFlatten(ToBits(Biased(dy, 32, 6), 6), ToBits(dx % 256, 8), ToBits(dz % 256, 8), ToBits(yaw, 8));
      case Full(coord, yaw, flags) => OnePiece(BytesToBits(PackTactical(coord, yaw, flags)));
    }
  }

  /** A multi-resolution transform: its tag, then its packed bytes in one piece. */
  function TransformPieces(t: Transform): Pieces {
    [ToBits(Tag(t), 2)] + if t.AtRest? then [] else [BytesToBits(PayloadBytes(t))]
  }

  lemma TransformPiecesFlatten(t: Transform)
    ensures Flatten(TransformPieces(t)) == EncodeTransform(t)
  {
    hide ToBits, PackTactical, PackMidfield, PackHorizon;
    var tag, payload := ToBits(Tag(t), 2), BytesToBits(PayloadBytes(t));
    OnePiece(tag);
    OnePiece(payload);
    if t.AtRest? {
      assert payload == [];
      assert TransformPieces(t) == [tag];
      assert EncodeTransform(t) == tag + payload == tag;
    } else {
      assert TransformPieces(t) == [tag] + [payload];
      FlattenAppend([tag], [payload]);
      assert EncodeTransform(t) == tag + payload;
    }
  }

  function EntryPieces(e: Entry): Pieces { VarintPieces(e.entityId) + TransformPieces(e.transform) }

  function EntriesPieces(entries: seq<Entry>): Pieces {
    if entries == [] then [] else EntryPieces(entries[0]) + EntriesPieces(entries[1..])
  }

  function BatchPieces(entries: seq<Entry>): Pieces { VarintPieces(|entries|) + EntriesPieces(entries) }

  lemma EntryPiecesFlatten(e: Entry)
    ensures Flatten(EntryPieces(e)) == EncodeEntry(e)
  {
    hide VarintPieces, TransformPieces, EncodeTransform, VarintBytes, BytesToBits, Flatten;
    FlattenAppend(VarintPieces(e.entityId), TransformPieces(e.transform));
    VarintPiecesFlatten(e.entityId);
    TransformPiecesFlatten(e.transform);
  }

  lemma {:induction false} EntriesPiecesFlatten(entries: seq<Entry>)
    ensures Flatten(EntriesPieces(entries)) == EncodeEntries(entries)
  {
    hide EntryPieces, EncodeEntry;
    if entries != [] {
      EntryPiecesFlatten(entries[0]);
      FlattenAppend(EntryPieces(entries[0]), EntriesPieces(entries[1..]));
      EntriesPiecesFlatten(entries[1..]);
    }
  }

  lemma BatchPiecesFlatten(entries: seq<Entry>)
    ensures Flatten(BatchPieces(entries)) == EncodeBatch(entries)
  {
    hide VarintPieces, EntriesPieces, EncodeEntries, VarintBytes, BytesToBits, Flatten;
    FlattenAppend(VarintPieces(|entries|), EntriesPieces(entries));
    VarintPiecesFlatten(|entries|);
    EntriesPiecesFlatten(entries);
  }

  // ----- Writing -----

  /** `write_bits` of one field. */
  method WriteField(w: BitWriter, value: u64, n: nat) returns (r: Result<(), BitstreamError>)
    requires w.Valid()
    modifies w`bitOffset, w.buffer
    ensures w.Valid()
    ensures n > 64 ==> r == Err(InvalidBitWidth(n)) && w.bitOffset == old(w.bitOffset) && w.Bits() == old(w.Bits())
    ensures n <= 64 ==>
              Wrote(old(w.Bits()), w.Bits(), old(w.bitOffset), w.bitOffset, [ToBits(value, n)], ErrorOf(r))
  {
    hide ToBits, Wrote, Overwrites;
    r := w.WriteBits(value, n);
    if r.Ok? {
      WroteWhole(old(w.Bits()), w.Bits(), old(w.bitOffset), ToBits(value, n));
    } else if n <= 64 {
      WroteNothing(w.Bits(), w.bitOffset, ToBits(value, n));
    }
  }

  method WriteByteString(w: BitWriter, bytes: seq<u8>) returns (r: Result<(), BitstreamError>)
    requires w.Valid()
    modifies w`bitOffset, w.buffer
    ensures w.Valid()
    ensures Wrote(old(w.Bits()), w.Bits(), old(w.bitOffset), w.bitOffset, [BytesToBits(bytes)], ErrorOf(r))
  {
    hide BytesToBits, Wrote, Overwrites;
    r := w.WriteBytes(bytes);
    if r.Ok? {
      WroteWhole(old(w.Bits()), w.Bits(), old(w.bitOffset), BytesToBits(bytes));
    } else {
      WroteNothing(w.Bits(), w.bitOffset, BytesToBits(bytes));
    }
  }

  /** Any list of fields, one `write_bits` after the other until one fails. */
  method WriteFields(w: BitWriter, fields: seq<(u64, nat)>) returns (r: Result<(), BitstreamError>)
    requires w.Valid()
    modifies w`bitOffset, w.buffer
    ensures w.Valid()
    ensures WroteFields(old(w.Bits()), w.Bits(), old(w.bitOffset), w.bitOffset, fields, ErrorOf(r))
  {
    hide Wrote, WroteFields, ToBits;
    ghost var before, off := w.Bits(), w.bitOffset;
    ghost var done: Pieces := [];
    WroteNoPieces(before, off);
    for i := 0 to |fields|
      invariant w.Valid() && |w.Bits()| == |before|
      invariant Wrote(before, w.Bits(), off, w.bitOffset, done, None)
      invariant done + FieldPieces(fields[i..]) == FieldPieces(fields) && TooWide(fields[i..]) == TooWide(fields)
    {
      ghost var middle, here := w.Bits(), w.bitOffset;
      ghost var x, y := [ToBits(fields[i].0, fields[i].1)], FieldPieces(fields[i + 1..]);
      assert fields[i..][1..] == fields[i + 1..];
      r := WriteField(w, fields[i].0, fields[i].1);
      if fields[i].1 > 64 {
        assert done + [] == done;
        WroteAllFields(before, w.Bits(), off, w.bitOffset, fields, None);
        return;
      }
      WroteNext(before, middle, w.Bits(), off, here, w.bitOffset, done, x, y, FieldPieces(fields), ErrorOf(r));
      if r.Err? {
        WroteAllFields(before, w.Bits(), off, w.bitOffset, fields, ErrorOf(r));
        return;
      }
      done := done + x;
    }
    assert done + [] == done;
    WroteAllFields(before, w.Bits(), off, w.bitOffset, fields, None);
    r := Ok(());
  }

  /** Unsigned LEB128, low seven bits first; returns how many bytes it took. */
  method WriteVarint(w: BitWriter, value: u64) returns (r: Result<nat, BitstreamError>)
    requires w.Valid()
    modifies w`bitOffset, w.buffer
    ensures w.Valid()
    ensures Wrote(old(w.Bits()), w.Bits(), old(w.bitOffset), w.bitOffset, VarintPieces(value), ErrorOf(r))
    ensures r.Ok? ==> r.value == |VarintBytes(value)|
  {
    VarintPiecesFlatten(value);
    hide *;
    ghost var before, off := w.Bits(), w.bitOffset;
    ghost var done: Pieces := [];
    WroteNoPieces(before, off);
    var rest: u64 := value;
    var bytesWritten := 0;
    while true
      invariant w.Valid() && |w.Bits()| == |before|
      invariant Wrote(before, w.Bits(), off, w.bitOffset, done, None)
      invariant done + VarintPieces(rest) == VarintPieces(value) && bytesWritten == |done|
      decreases rest
    {
      VarintPiecesUnfold(rest);
      var byte := Low(rest, 7);
      rest := High(rest, 7);
      if rest != 0 {
        byte := Join(byte, 7, 1);
      }
      ghost var middle, here := w.Bits(), w.bitOffset;
      ghost var x, y := [ToBits(byte, 8)], VarintAfter(rest);
      var one := WriteField(w, byte, 8);
      WroteNext(before, middle, w.Bits(), off, here, w.bitOffset, done, x, y, VarintPieces(value), ErrorOf(one));
      ErrorIs(one);
      if one.Err? {
        ErrorIs<nat>(Err(one.error));
        return Err(one.error);
      }
      done := done + x;
      bytesWritten := bytesWritten + 1;
      if rest == 0 {
        assert done + y == done;
        break;
      }
    }
    r := Ok(bytesWritten);
    ErrorIs(r);
  }

  /** Four fields in a row, stopping at the first that does not fit. */
  method WriteFour(w: BitWriter, x0: u64, a: nat, x1: u64, b: nat, x2: u64, c: nat, x3: u64, d: nat)
    returns (r: Result<(), BitstreamError>)
    requires w.Valid() && a <= 64 && b <= 64 && c <= 64 && d <= 64
    modifies w`bitOffset, w.buffer
    ensures w.Valid()
    ensures Wrote(old(w.Bits()), w.Bits(), old(w.bitOffset), w.bitOffset,
                  [ToBits(x0, a), ToBits(x1, b), ToBits(x2, c), ToBits(x3, d)], ErrorOf(r))
  {
    hide Wrote, ToBits;
    var fields := [(x0, a), (x1, b), (x2, c), (x3, d)];
    FourFieldPieces(fields);
    hide FieldPieces, OutcomeOf, TooWide, Flatten;
    r := WriteFields(w, fields);
  }

  lemma FourFieldPieces(fields: seq<(u64, nat)>)
    requires |fields| == 4 && forall i :: 0 <= i < 4 ==> fields[i].1 <= 64
    ensures TooWide(fields).None?
    ensures FieldPieces(fields) == [ToBits(fields[0].0, fields[0].1), ToBits(fields[1].0, fields[1].1),
                                    ToBits(fields[2].0, fields[2].1), ToBits(fields[3].0, fields[3].1)]
  {
    hide ToBits;
    assert fields[1..][1..] == fields[2..] && fields[2..][1..] == fields[3..] && fields[3..][1..] == [];
    assert FieldPieces(fields[3..]) == [ToBits(fields[3].0, fields[3].1)] + [];
    assert FieldPieces(fields[2..]) == [ToBits(fields[2].0, fields[2].1)] + FieldPieces(fields[3..]);
    assert FieldPieces(fields[1..]) == [ToBits(fields[1].0, fields[1].1)] + FieldPieces(fields[2..]);
  }

  /** A delta: its two-bit tag, then the fields of its tier. */
  method WriteDeltaTransform(w: BitWriter, delta: Delta) returns (r: Result<(), BitstreamError>)
    requires w.Valid()
    modifies w`bitOffset, w.buffer
    ensures w.Valid()
    ensures Wrote(old(w.Bits()), w.Bits(), old(w.bitOffset), w.bitOffset, DeltaPieces(delta), ErrorOf(r))
  {
    hide Wrote, ToBits, BytesToBits, Biased, PackTactical;
    ghost var before, off := w.Bits(), w.bitOffset;
    ghost var tag := [ToBits(DeltaTag(delta), 2)];
    ghost var rest := DeltaRest(delta);
    r := WriteField(w, DeltaTag(delta), 2);
    if r.Err? {
      WroteNoMore(before, w.Bits(), off, w.bitOffset, tag, rest, r.error);
      return;
    }
    ghost var middle, here := w.Bits(), w.bitOffset;
    match delta {
      case Stationary =>
        assert tag + rest == tag;
        return;
      case Small(dx, dz, dy, dyaw) =>
        r := WriteFour(w, Biased(dx, 8, 4), 4, Biased(dz, 8, 4), 4, Biased(dy, 4, 3), 3, Biased(dyaw, 4, 3), 3);
      case Medium(dx, dz, dy, yaw) =>
        r := WriteFour(w, Biased(dy, 32, 6), 6, dx % 256, 8, dz % 256, 8, yaw, 8);
      case Full(coord, yaw, flags) =>
        r := WriteByteString(w, PackTactical(coord, yaw, flags));
    }
    WroteThen(before, middle, w.Bits(), off, here, w.bitOffset, tag, rest, ErrorOf(r));
  }

  /** A multi-resolution transform: its two-bit tag, then its packed bytes. */
  method WriteMultiresTransform(w: BitWriter, t: Transform) returns (r: Result<(), BitstreamError>)
    requires w.Valid()
    modifies w`bitOffset, w.buffer
    ensures w.Valid()
    ensures Wrote(old(w.Bits()), w.Bits(), old(w.bitOffset), w.bitOffset, TransformPieces(t), ErrorOf(r))
  {
    hide Wrote, ToBits, BytesToBits, PackTactical, PackMidfield, PackHorizon;
    ghost var before, off := w.Bits(), w.bitOffset;
    ghost var tag := [ToBits(Tag(t), 2)];
    ghost var rest := if t.AtRest? then [] else [BytesToBits(PayloadBytes(t))];
    r := WriteField(w, Tag(t), 2);
    if r.Err? {
      WroteNoMore(before, w.Bits(), off, w.bitOffset, tag, rest, r.error);
      return;
    }
    ghost var middle, here := w.Bits(), w.bitOffset;
    match t {
      case AtRest =>
        assert tag + rest == tag;
        return;
      case Tactical(coord, yaw, flags) => r := WriteByteString(w, PackTactical(coord, yaw, flags));
      case Midfield(coord, yaw, flags) => r := WriteByteString(w, PackMidfield(coord, yaw, flags));
      case Horizon(coord, heading, flags) => r := WriteByteString(w, PackHorizon(coord, heading, flags));
    }
    WroteThen(before, middle, w.Bits(), off, here, w.bitOffset, tag, rest, ErrorOf(r));
  }

  method WriteEntry(w: BitWriter, e: Entry) returns (r: Result<(), BitstreamError>)
    requires w.Valid()
    modifies w`bitOffset, w.buffer
    ensures w.Valid()
    ensures Wrote(old(w.Bits()), w.Bits(), old(w.bitOffset), w.bitOffset, EntryPieces(e), ErrorOf(r))
  {
    hide Wrote, VarintPieces, TransformPieces;
    ghost var before, off := w.Bits(), w.bitOffset;
    ghost var id, t := VarintPieces(e.entityId), TransformPieces(e.transform);
    var length := WriteVarint(w, e.entityId);
    if length.Err? {
      WroteNoMore(before, w.Bits(), off, w.bitOffset, id, t, length.error);
      return Err(length.error);
    }
    ghost var middle, here := w.Bits(), w.bitOffset;
    r := WriteMultiresTransform(w, e.transform);
    WroteThen(before, middle, w.Bits(), off, here, w.bitOffset, id, t, ErrorOf(r));
  }

  /** A replication batch: the number of entries, then every entry. */
  method WriteMultiresBatch(w: BitWriter, entries: seq<Entry>) returns (r: Result<(), BitstreamError>)
    requires w.Valid() && |entries| <= U64_MAX
    modifies w`bitOffset, w.buffer
    ensures w.Valid()
    ensures Wrote(old(w.Bits()), w.Bits(), old(w.bitOffset), w.bitOffset, BatchPieces(entries), ErrorOf(r))
  {
    hide Wrote, VarintPieces, EntryPieces;
    ghost var before, off := w.Bits(), w.bitOffset;
    ghost var done := VarintPieces(|entries|);
    var length := WriteVarint(w, |entries|);
    if length.Err? {
      WroteNoMore(before, w.Bits(), off, w.bitOffset, done, EntriesPieces(entries), length.error);
      return Err(length.error);
    }
    for i := 0 to |entries|
      invariant w.Valid() && |w.Bits()| == |before|
      invariant Wrote(before, w.Bits(), off, w.bitOffset, done, None)
      invariant done + EntriesPieces(entries[i..]) == BatchPieces(entries)
    {
      ghost var middle, here := w.Bits(), w.bitOffset;
      ghost var x, y := EntryPieces(entries[i]), EntriesPieces(entries[i + 1..]);
      assert entries[i..][1..] == entries[i + 1..];
      r := WriteEntry(w, entries[i]);
      WroteNext(before, middle, w.Bits(), off, here, w.bitOffset, done, x, y, BatchPieces(entries), ErrorOf(r));
      if r.Err? { return; }
      done := done + x;
    }
    assert done + [] == done;
    r := Ok(());
  }

  // ----- Reading -----

  /** A read that ended at `next` with `r` did what the decoder says. */
  ghost predicate Follows<T(!new)>(r: Result<T, BitstreamError>, next: nat, d: Decoded<T>) {
    match d
    case Good(v, n) => r == Ok(v) && next == n
    case Bad(e, n) => r == Err(e) && next == n
  }

  /** Unsigned LEB128 of at most ten bytes; the tenth may hold one bit. */
  method ReadVarint(rd: BitReader) returns (r: Result<u64, BitstreamError>)
    requires rd.Valid()
    modifies rd
    ensures rd.Valid()
    ensures Follows(r, rd.bitOffset, DecodeVarint0(rd.Bits(), old(rd.bitOffset)))
  {
    hide Low, High, Join, FromBits, Stream, Pow2, DecodeVarint;
    Pow2Small();
    Pow2Zero();
    var result: nat, shift: nat := 0, 0;
    for i := 0 to 10
      invariant rd.Valid() && shift == 7 * i && result < Pow2(if i == 10 then 64 else 7 * i)
      invariant DecodeVarint(rd.Bits(), rd.bitOffset, i, result) == DecodeVarint0(rd.Bits(), old(rd.bitOffset))
    {
      VarintRound(rd.Bits(), rd.bitOffset, i, result);
      var read := rd.ReadU8();
      if read.Err? {
        return Err(read.error);
      }
      var byte := read.value;
      var val := Low(byte, 7);
      if i == 9 && High(val, 1) != 0 {
        return Err(InvalidVarint);
      }
      result := Join(result, shift, val);
      if High(byte, 7) == 0 {
        return Ok(result);
      }
      shift := shift + 7;
    }
    TenBytes(rd.Bits(), rd.bitOffset, result);
    r := Err(InvalidVarint);
  }

  lemma TenBytes(bits: seq<bool>, off: nat, acc: nat)
    requires off <= |bits| && acc < Pow2(64)
    ensures DecodeVarint(bits, off, 10, acc) == Bad(InvalidVarint, off)
  {
  }

  method ReadField(rd: BitReader, n: nat) returns (r: Result<u64, BitstreamError>)
    requires rd.Valid()
    modifies rd
    ensures rd.Valid()
    ensures Follows(r, rd.bitOffset, DecodeBits(rd.Bits(), old(rd.bitOffset), n))
    ensures r.Ok? ==> r.value < Pow2(n)
  {
    hide FromBits, Stream;
    r := rd.ReadBits(n);
  }

  /** Any list of widths, one `read_bits` after the other until one fails. */
  method ReadFields(rd: BitReader, widths: seq<nat>) returns (r: Result<seq<nat>, BitstreamError>)
    requires rd.Valid()
    modifies rd
    ensures rd.Valid()
    ensures Follows(r, rd.bitOffset, DecodeFields(rd.Bits(), old(rd.bitOffset), widths))
  {
    hide DecodeBits, DecodeFields, Stream;
    ghost var whole := DecodeFields(rd.Bits(), rd.bitOffset, widths);
    var values: seq<nat> := [];
    ContinuesAll(whole);
    for i := 0 to |widths|
      invariant rd.Valid() && |values| == i
      invariant Continues(whole, values, DecodeFields(rd.Bits(), rd.bitOffset, widths[i..]))
    {
      ContinuesNext(whole, values, rd.Bits(), rd.bitOffset, widths[i..]);
      assert widths[i..][1..] == widths[i + 1..];
      var v := ReadField(rd, widths[i]);
      if v.Err? { return Err(v.error); }
      values := values + [v.value];
    }
    NoFields(rd.Bits(), rd.bitOffset);
    assert values + [] == values;
    r := Ok(values);
  }

  /** Decoding a list of fields when the first `done` are already read. */
  ghost predicate Continues(whole: Decoded<seq<nat>>, done: seq<nat>, rest: Decoded<seq<nat>>) {
    match rest
    case Good(more, n) => whole == Good(done + more, n)
    case Bad(e, n) => whole == Bad(e, n)
  }

  lemma ContinuesAll(whole: Decoded<seq<nat>>)
    ensures Continues(whole, [], whole)
  {
    if whole.Good? { assert [] + whole.value == whole.value; }
  }

  lemma NoFields(bits: seq<bool>, off: nat)
    requires off <= |bits|
    ensures DecodeFields(bits, off, []) == Good([], off)
  {
  }

  lemma ContinuesNext(whole: Decoded<seq<nat>>, done: seq<nat>, bits: seq<bool>, off: nat, widths: seq<nat>)
    requires off <= |bits| && widths != []
    requires Continues(whole, done, DecodeFields(bits, off, widths))
    ensures match DecodeBits(bits, off, widths[0])
            case Bad(e, n) => whole == Bad(e, n)
            case Good(v, n) => Continues(whole, done + [v], DecodeFields(bits, n, widths[1..]))
  {
    hide DecodeBits;
    match DecodeBits(bits, off, widths[0]) {
      case Bad(_, _) =>
      case Good(v, n) =>
        match DecodeFields(bits, n, widths[1..]) {
          case Bad(_, _) =>
          case Good(rest, m) => assert (done + [v]) + rest == done + ([v] + rest);
        }
    }
  }

  method ReadByteString(rd: BitReader, count: nat) returns (r: Result<seq<u8>, BitstreamError>)
    requires rd.Valid()
    modifies rd
    ensures rd.Valid()
    ensures Follows(r, rd.bitOffset, DecodeBytes(rd.Bits(), old(rd.bitOffset), count))
    ensures r.Ok? ==> |r.value| == count
  {
    hide BytesToBits, BitsToBytes, Stream;
    r := rd.ReadBytes(count);
    if r.Ok? {
      BytesRoundTrip(r.value);
    }
  }

  method ReadFour(rd: BitReader, a: nat, b: nat, c: nat, d: nat)
    returns (r: Result<(nat, nat, nat, nat), BitstreamError>)
    requires rd.Valid() && a <= 64 && b <= 64 && c <= 64 && d <= 64
    modifies rd
    ensures rd.Valid()
    ensures Follows(r, rd.bitOffset, DecodeFour(rd.Bits(), old(rd.bitOffset), a, b, c, d))
  {
    hide DecodeBits, Stream;
    var w := ReadField(rd, a);
    if w.Err? { return Err(w.error); }
    var x := ReadField(rd, b);
    if x.Err? { return Err(x.error); }
    var y := ReadField(rd, c);
    if y.Err? { return Err(y.error); }
    var z := ReadField(rd, d);
    if z.Err? { return Err(z.error); }
    r := Ok((w.value, x.value, y.value, z.value));
  }

  method ReadDeltaTransform(rd: BitReader) returns (r: Result<Delta, BitstreamError>)
    requires rd.Valid()
    modifies rd
    ensures rd.Valid()
    ensures Follows(r, rd.bitOffset, DecodeDelta(rd.Bits(), old(rd.bitOffset)))
  {
    Pow2Small();
    hide DecodeBits, DecodeFour, DecodeBytes, Stream, UnpackTactical, Pow2;
    var tag := ReadField(rd, 2);
    if tag.Err? { return Err(tag.error); }
    if tag.value == 0 {
      return Ok(Stationary);
    } else if tag.value == 1 {
      var f := ReadFour(rd, 4, 4, 3, 3);
      if f.Err? { return Err(f.error); }
      var (x, z, y, yaw) := f.value;
      r := Ok(Small(x as int - 8, z as int - 8, y as int - 4, yaw as int - 4));
    } else if tag.value == 2 {
      var f := ReadFour(rd, 6, 8, 8, 8);
      if f.Err? { return Err(f.error); }
      var (y, x, z, yaw) := f.value;
      r := Ok(Medium(AsI8(x), AsI8(z), y as int - 32, yaw));
    } else {
      var b := ReadByteString(rd, 7);
      if b.Err? { return Err(b.error); }
      r := Ok(UnpackedFull(b.value));
    }
  }

  method ReadMultiresTransform(rd: BitReader) returns (r: Result<Transform, BitstreamError>)
    requires rd.Valid()
    modifies rd
    ensures rd.Valid()
    ensures Follows(r, rd.bitOffset, DecodeTransform(rd.Bits(), old(rd.bitOffset)))
  {
    Pow2Small();
    hide DecodeBits, Stream, BitsToBytes, UnpackTactical, UnpackMidfield, UnpackHorizon, Pow2;
    var tag := ReadField(rd, 2);
    if tag.Err? { return Err(tag.error); }
    if tag.value == 3 {
      NoBytes(rd.Bits(), rd.bitOffset);
      return Ok(AtRest);
    }
    var b := ReadByteString(rd, if tag.value == 0 then 7 else if tag.value == 1 then 5 else 3);
    if b.Err? { return Err(b.error); }
    r := Ok(FromPayload(tag.value, b.value));
  }

  lemma NoBytes(bits: seq<bool>, off: nat)
    requires off <= |bits|
    ensures DecodeBytes(bits, off, 0) == Good([], off)
  {
  }

  method ReadEntry(rd: BitReader) returns (r: Result<Entry, BitstreamError>)
    requires rd.Valid()
    modifies rd
    ensures rd.Valid()
    ensures Follows(r, rd.bitOffset, DecodeEntry(rd.Bits(), old(rd.bitOffset)))
  {
    hide DecodeVarint0, DecodeTransform, Stream;
    var id := ReadVarint(rd);
    if id.Err? { return Err(id.error); }
    var t := ReadMultiresTransform(rd);
    if t.Err? { return Err(t.error); }
    r := Ok(Entry(id.value % 0x1_0000_0000, t.value));
  }

  /** Decoding `count` entries when the first `done` of them are already read. */
  ghost predicate Resumes(whole: Decoded<seq<Entry>>, done: seq<Entry>, rest: Decoded<seq<Entry>>) {
    match rest
    case Good(more, n) => whole == Good(done + more, n)
    case Bad(e, n) => whole == Bad(e, n)
  }

  /** The entries before the first that fails to decode. */
  ghost function ReadSoFar(bits: seq<bool>, off: nat, count: nat): seq<Entry>
    requires off <= |bits|
    decreases count
  {
    if count == 0 then []
    else
      match DecodeEntry(bits, off)
      case Bad(_, _) => []
      case Good(first, n) => [first] + ReadSoFar(bits, n, count - 1)
  }

  lemma NothingToRead(bits: seq<bool>, off: nat)
    requires off <= |bits|
    ensures ReadSoFar(bits, off, 0) == []
  {
  }

  lemma ReadSoFarNext(done: seq<Entry>, bits: seq<bool>, off: nat, count: nat)
    requires off <= |bits| && count > 0
    ensures match DecodeEntry(bits, off)
            case Bad(_, _) => done + ReadSoFar(bits, off, count) == done
            case Good(first, n) =>
              (done + [first]) + ReadSoFar(bits, n, count - 1) == done + ReadSoFar(bits, off, count)
  {
    hide DecodeEntry;
    match DecodeEntry(bits, off) {
      case Bad(_, _) => assert done + [] == done;
      case Good(first, n) =>
        assert (done + [first]) + ReadSoFar(bits, n, count - 1) == done + ([first] + ReadSoFar(bits, n, count - 1));
    }
  }

  lemma ResumesNext(whole: Decoded<seq<Entry>>, done: seq<Entry>, bits: seq<bool>, off: nat, count: nat)
    requires off <= |bits| && count > 0
    requires Resumes(whole, done, DecodeEntries(bits, off, count))
    ensures match DecodeEntry(bits, off)
            case Bad(e, n) => whole == Bad(e, n)
            case Good(first, n) => Resumes(whole, done + [first], DecodeEntries(bits, n, count - 1))
  {
    hide DecodeEntry;
    match DecodeEntry(bits, off) {
      case Bad(e, n) =>
      case Good(first, n) =>
        match DecodeEntries(bits, n, count - 1) {
          case Bad(e, m) =>
          case Good(rest, m) => assert (done + [first]) + rest == done + ([first] + rest);
        }
    }
  }

  /** Reads a batch into `out`, which it empties once the count is known. */
  method ReadMultiresBatch(rd: BitReader, current: seq<Entry>)
    returns (r: Result<nat, BitstreamError>, out: seq<Entry>)
    requires rd.Valid()
    modifies rd
    ensures rd.Valid()
    ensures Follows(if r.Ok? then Ok(out) else Err(r.error), rd.bitOffset,
                    DecodeBatch(rd.Bits(), old(rd.bitOffset)))
    ensures r.Ok? ==> r.value == |out|
    ensures match DecodeVarint0(rd.Bits(), old(rd.bitOffset))
            case Bad(_, _) => out == current
            case Good(count, n) => out == ReadSoFar(rd.Bits(), n, count)
  {
    hide DecodeVarint0, DecodeEntry, DecodeEntries, Stream, ReadSoFar;
    ghost var whole := DecodeBatch(rd.Bits(), rd.bitOffset);
    out := current;
    var count := ReadVarint(rd);
    if count.Err? { return Err(count.error), out; }
    out := [];
    ResumesAll(whole);
    ghost var all := ReadSoFar(rd.Bits(), rd.bitOffset, count.value);
    assert [] + all == all;
    for i := 0 to count.value
      invariant rd.Valid() && |out| == i
      invariant Resumes(whole, out, DecodeEntries(rd.Bits(), rd.bitOffset, count.value - i))
      invariant out + ReadSoFar(rd.Bits(), rd.bitOffset, count.value - i) == all
    {
      ReadSoFarNext(out, rd.Bits(), rd.bitOffset, count.value - i);
      ResumesNext(whole, out, rd.Bits(), rd.bitOffset, count.value - i);
      var e := ReadEntry(rd);
      if e.Err? { return Err(e.error), out; }
      out := out + [e.value];
    }
    NoEntries(rd.Bits(), rd.bitOffset);
    NothingToRead(rd.Bits(), rd.bitOffset);
    assert out + [] == out;
    r := Ok(count.value);
  }

  lemma ResumesAll(whole: Decoded<seq<Entry>>)
    ensures Resumes(whole, [], whole)
  {
    if whole.Good? { assert [] + whole.value == whole.value; }
  }

  // ----- End to end -----

  /** A complete write leaves its pieces standing in the stream, whatever is written behind them later. */
  lemma WroteStands(before: seq<bool>, after: seq<bool>, off: nat, next: nat, pieces: Pieces,
                    last: seq<bool>, later: nat, x: seq<bool>)
    requires Wrote(before, after, off, next, pieces, None) && next <= later
    requires Overwrites(after, last, later, x)
    ensures HasAt(last, off, Flatten(pieces)) && next == off + |Flatten(pieces)|
  {
    hide Flatten, OutcomeOf;
    var bits := Flatten(pieces);
    assert bits[..|bits|] == bits;
    SliceOfPrefix(last, after, later, off, next);
  }

  lemma SliceOfPrefix(a: seq<bool>, b: seq<bool>, k: nat, i: nat, j: nat)
    requires i <= j <= k <= |a| && k <= |b| && a[..k] == b[..k]
    ensures a[i..j] == b[i..j]
  {
    forall m | i <= m < j
      ensures a[m] == b[m]
    {
      assert a[m] == a[..k][m] && b[m] == b[..k][m];
    }
  }

  /**
   Any list of (value, width) writes at any cursor, followed by any writes behind it, is read
   back from that cursor as each value modulo 2^width, and the reader stops where the list ended.
   */
  lemma FieldsSurvive(before: seq<bool>, after: seq<bool>, off: nat, next: nat, fields: seq<(u64, nat)>,
                      last: seq<bool>, later: nat, x: seq<bool>)
    requires next <= later && WroteFields(before, after, off, next, fields, None)
    requires Overwrites(after, last, later, x)
    ensures off <= |last| && DecodeFields(last, off, Widths(fields)) == Good(Reduced(fields), next)
  {
    hide Wrote, FieldPieces, EncodeFields, DecodeFields, Flatten, Widths, Reduced, Overwrites, OutcomeOf, TooWide;
    WroteStands(before, after, off, next, FieldPieces(fields), last, later, x);
    FieldPiecesFlatten(fields);
    FieldsRoundTrip(last, off, fields);
  }

  /**
   A batch written at any cursor, followed by any writes behind it, is read back from that
   cursor: the reader returns the entries as sent and stops where the batch ended.
   */
  lemma BatchSurvives(before: seq<bool>, after: seq<bool>, off: nat, next: nat, entries: seq<Entry>,
                      last: seq<bool>, later: nat, x: seq<bool>)
    requires |entries| <= U64_MAX && next <= later
    requires Wrote(before, after, off, next, BatchPieces(entries), None)
    requires Overwrites(after, last, later, x)
    ensures off <= |last| && DecodeBatch(last, off) == Good(SentEntries(entries), next)
  {
    hide Wrote, BatchPieces, EncodeBatch, DecodeBatch, SentEntries, TransformInRange, Flatten, Overwrites;
    WroteStands(before, after, off, next, BatchPieces(entries), last, later, x);
    BatchPiecesFlatten(entries);
    BatchRoundTrip(last, off, entries);
  }

  /** The same for a delta transform. */
  lemma DeltaSurvives(before: seq<bool>, after: seq<bool>, off: nat, next: nat, d: Delta,
                      last: seq<bool>, later: nat, x: seq<bool>)
    requires next <= later && Wrote(before, after, off, next, DeltaPieces(d), None)
    requires Overwrites(after, last, later, x)
    ensures off <= |last| && DecodeDelta(last, off) == Good(Sent(d), next)
  {
    hide Wrote, DeltaPieces, EncodeDelta, DecodeDelta, Sent, Flatten, Overwrites;
    WroteStands(before, after, off, next, DeltaPieces(d), last, later, x);
    DeltaPiecesFlatten(d);
    DeltaRoundTrip(last, off, d);
  }
}
