/** The anti-replay window of section 4.1.2.6 of RFC 6347, and the epochs it is reset for. */
module DtlsReplay {
  import opened Bits
  import opened Bytes
  import opened DtlsFragment

  const WINDOW := 64

  /** What has been accepted in the current epoch, without any window. */
  datatype Ideal = Ideal(epoch: nat, seen: set<nat>, highest: nat)

  predicate IdealValid(i: Ideal) {
    && (forall s | s in i.seen :: s <= i.highest)
    && (i.highest == 0 || i.highest in i.seen)
  }

  /** Seen already, or too old to tell. */
  predicate Discards(i: Ideal, s: nat) {
    s in i.seen || s + WINDOW <= i.highest
  }

  function Recorded(i: Ideal, s: nat): Ideal {
    i.(seen := i.seen + {s}, highest := if s > i.highest then s else i.highest)
  }

  /** Bit k of the map stands for the number k below the highest. */
  ghost predicate Represents(map_: nat, highest: nat, seen: set<nat>) {
    && map_ < ShiftLeft(1, 64)
    && forall k: nat | k < WINDOW :: Bit(map_, k) <==> k <= highest && highest - k in seen
  }

  /** Sliding the window up keeps the bits it still covers and clears the rest. */
  lemma Slide(map_: nat, highest: nat, seen: set<nat>, s: nat)
    requires Represents(map_, highest, seen) && s > highest
    requires forall t | t in seen :: t <= highest
    ensures var shift := s - highest;
            Represents(if shift >= WINDOW then 0 else ShiftLeft(map_, shift) % ShiftLeft(1, 64), s, seen)
  {
    var shift := s - highest;
    ShiftLeftPositive(64);
    var slid := if shift >= WINDOW then 0 else ShiftLeft(map_, shift) % ShiftLeft(1, 64);
    forall k: nat | k < WINDOW ensures Bit(slid, k) <==> k <= s && s - k in seen {
      if shift >= WINDOW {
        ZeroBits(k);
      } else {
        TruncateBits(ShiftLeft(map_, shift), 64, k);
        ShiftLeftBits(map_, shift, k);
        if k >= shift {
          assert Bit(map_, k - shift) <==> k - shift <= highest && highest - (k - shift) in seen;
        }
      }
    }
  }

  lemma SetIndex(map_: nat, highest: nat, seen: set<nat>, s: nat)
    requires Represents(map_, highest, seen) && s <= highest
    ensures highest - s < WINDOW ==>
              ShiftLeft(1, highest - s) < ShiftLeft(1, 64) &&
              Represents(Or(map_, ShiftLeft(1, highest - s)), highest, seen + {s})
    ensures highest - s >= WINDOW ==> Represents(map_, highest, seen + {s})
  {
    var idx := highest - s;
    if idx < WINDOW {
      PowerMonotone(idx + 1, 64);
      ShiftLeftPositive(idx);
      OrBound(map_, ShiftLeft(1, idx), 64);
      forall k: nat | k < WINDOW
        ensures Bit(Or(map_, ShiftLeft(1, idx)), k) <==> k <= highest && highest - k in seen + {s}
      {
        OrBits(map_, ShiftLeft(1, idx), k);
        SingleBit(idx, k);
      }
    }
  }

  /** The sequence field of a record as a number; its top sixteen bits are the epoch. */
  function Number(sequence: seq<byte>): (n: nat)
    requires |sequence| == 8
  {
    FromBigEndian(sequence)
  }

  function Epoch(sequence: seq<byte>): nat
    requires |sequence| == 8
  {
    FromBigEndian(sequence[..2])
  }

  class RecordReader {
    var rEpoch: nat
    var window: nat      // bitmap.map
    var maxSeqNum: nat   // bitmap.max_seq_num
    ghost var ideal: Ideal

    /** The window represents what has been accepted in this epoch. */
    ghost predicate Valid()
      reads this
    {
      && rEpoch < TWO_16
      && IdealValid(ideal)
      && ideal.epoch == rEpoch && ideal.highest == maxSeqNum
      && Represents(window, maxSeqNum, ideal.seen)
    }

    constructor ()
      ensures Valid() && ideal == Ideal(0, {}, 0)
    {
      rEpoch, window, maxSeqNum := 0, 0, 0;
      ideal := Ideal(0, {}, 0);
      new;
      EmptyWindow();
    }

    /** to_u64_be. */
    method ToU64(sequence: seq<byte>) returns (n: nat)
      requires |sequence| == 8
      ensures n == Number(sequence)
    {
      n := 0;
      for i := 0 to 8
        invariant n == FromBigEndian(sequence[..i])
      {
        assert sequence[..i + 1][..i] == sequence[..i];
        n := 256 * n + sequence[i];
      }
      assert sequence[..8] == sequence;
    }

    /** dtls1_bitmap_should_discard. */
    method ShouldDiscard(sequence: seq<byte>) returns (discard: bool)
      requires Valid() && |sequence| == 8
      ensures discard <==> Discards(ideal, Number(sequence))
    {
      var n := ToU64(sequence);
      if n > maxSeqNum {
        return false;
      }
      var idx := maxSeqNum - n;
      return idx >= WINDOW || Bit(window, idx);
    }

    /** dtls1_bitmap_record. */
    method Record(sequence: seq<byte>)
      requires Valid() && |sequence| == 8
      modifies this
      ensures Valid() && ideal == Recorded(old(ideal), Number(sequence))
    {
      var n := ToU64(sequence);
      if n > maxSeqNum {
        var shift := n - maxSeqNum;
        Slide(window, maxSeqNum, ideal.seen, n);
        ShiftLeftPositive(64);
        window := if shift >= WINDOW then 0 else ShiftLeft(window, shift) % ShiftLeft(1, 64);
        maxSeqNum := n;
      }
      var idx := maxSeqNum - n;
      SetIndex(window, maxSeqNum, ideal.seen, n);
      if idx < WINDOW {
        window := Or(window, ShiftLeft(1, idx));
      }
      ideal := Recorded(ideal, n);
    }

    /** The acceptance path of dtls_open_record; `authentic` is whether the record decrypts. */
    method Open(sequence: seq<byte>, authentic: bool) returns (accepted: bool)
      requires Valid() && |sequence| == 8
      modifies this
      ensures Valid()
      ensures accepted <==> Accepts(old(ideal), Arrival(sequence, authentic))
      ensures ideal == Next(old(ideal), Arrival(sequence, authentic))
    {
      if Epoch(sequence) != rEpoch {
        return false;
      }
      var discard := ShouldDiscard(sequence);
      if discard || !authentic {
        return false;
      }
      Record(sequence);
      return true;
    }

    /** dtls1_set_read_state: the next epoch starts with an empty window. */
    method NewEpoch()
      requires Valid()
      modifies this
      ensures Valid() && ideal == Next(old(ideal), KeyChange)
    {
      rEpoch := (rEpoch + 1) % TWO_16;
      window, maxSeqNum := 0, 0;
      ideal := Ideal(rEpoch, {}, 0);
      EmptyWindow();
    }

    /** A run over records and key changes: what the reader accepts is what the ideal accepts, and so, until the epoch
        wraps, no sequence field twice. */
    method Run(events: seq<Event>) returns (accepted: seq<seq<byte>>)
      requires Valid() && forall e | e in events :: EventValid(e)
      modifies this
      ensures Valid()
      ensures accepted == Accepted(old(ideal), events)
      ensures old(rEpoch) + KeyChanges(events) < TWO_16 ==>
                forall j, k | 0 <= j < k < |accepted| :: accepted[j] != accepted[k]
    {
      hide Represents, IdealValid, Discards, Number, Epoch, Recorded;
      ghost var start := ideal;
      accepted := [];
      for i := 0 to |events|
        invariant Valid()
        invariant accepted + Accepted(ideal, events[i..]) == Accepted(start, events)
      {
        assert events[i..][0] == events[i] && events[i..][1..] == events[i + 1..];
        ghost var now, before := ideal, accepted;
        assert EventValid(events[i]);
        match events[i] {
          case KeyChange => NewEpoch();
          case Arrival(sequence, authentic) =>
            var ok := Open(sequence, authentic);
            if ok {
              accepted := accepted + [sequence];
            }
        }
        AcceptedNext(now, before, events[i..]);
      }
      if old(rEpoch) + KeyChanges(events) < TWO_16 {
        forall j, k | 0 <= j < k < |accepted| ensures accepted[j] != accepted[k] {
          NeverTwice(start, events, j, k);
        }
      }
    }
  }

  lemma EmptyWindow()
    ensures Represents(0, 0, {})
  {
    ShiftLeftPositive(64);
    forall k: nat ensures !Bit(0, k) {
      ZeroBits(k);
    }
  }

  // ----- Whole runs -----

  datatype Event = Arrival(sequence: seq<byte>, authentic: bool) | KeyChange

  predicate EventValid(e: Event) {
    e.Arrival? ==> |e.sequence| == 8
  }

  predicate Accepts(i: Ideal, e: Event)
    requires EventValid(e)
  {
    e.Arrival? && Epoch(e.sequence) == i.epoch && !Discards(i, Number(e.sequence)) && e.authentic
  }

  function Next(i: Ideal, e: Event): Ideal
    requires EventValid(e)
  {
    if e.KeyChange? then Ideal((i.epoch + 1) % TWO_16, {}, 0)
    else if Accepts(i, e) then Recorded(i, Number(e.sequence))
    else i
  }

  /** The sequence fields accepted over a run, in order. */
  function Accepted(i: Ideal, events: seq<Event>): seq<seq<byte>>
    requires forall e | e in events :: EventValid(e)
    decreases |events|
  {
    if events == [] then []
    else (if Accepts(i, events[0]) then [events[0].sequence] else []) + Accepted(Next(i, events[0]), events[1..])
  }

  lemma AcceptedNext(i: Ideal, before: seq<seq<byte>>, events: seq<Event>)
    requires events != [] && forall e | e in events :: EventValid(e)
    ensures before + Accepted(i, events)
         == (if Accepts(i, events[0]) then before + [events[0].sequence] else before)
            + Accepted(Next(i, events[0]), events[1..])
  {
  }

  function KeyChanges(events: seq<Event>): nat {
    if events == [] then 0 else (if events[0].KeyChange? then 1 else 0) + KeyChanges(events[1..])
  }

  /** Whatever is accepted later has an epoch at least the current one, and in the current epoch a new number. */
  lemma {:induction false} AcceptedLater(i: Ideal, events: seq<Event>, k: nat)
    requires forall e | e in events :: EventValid(e)
    requires i.epoch + KeyChanges(events) < TWO_16
    requires k < |Accepted(i, events)|
    ensures |Accepted(i, events)[k]| == 8
    ensures i.epoch <= Epoch(Accepted(i, events)[k])
    ensures Epoch(Accepted(i, events)[k]) == i.epoch ==> Number(Accepted(i, events)[k]) !in i.seen
    decreases |events|
  {
    var e, rest := events[0], events[1..];
    if !Accepts(i, e) {
      AcceptedLater(Next(i, e), rest, k);
    } else if k > 0 {
      AcceptedLater(Next(i, e), rest, k - 1);
    }
  }

  /** Over any run, until the epoch wraps, no (epoch, sequence number) pair is accepted twice. */
  lemma {:induction false} NeverTwice(i: Ideal, events: seq<Event>, j: nat, k: nat)
    requires forall e | e in events :: EventValid(e)
    requires i.epoch + KeyChanges(events) < TWO_16
    requires j < k < |Accepted(i, events)|
    ensures Accepted(i, events)[j] != Accepted(i, events)[k]
    decreases |events|
  {
    var e, rest := events[0], events[1..];
    if !Accepts(i, e) {
      NeverTwice(Next(i, e), rest, j, k);
    } else if j > 0 {
      NeverTwice(Next(i, e), rest, j - 1, k - 1);
    } else {
      AcceptedLater(Next(i, e), rest, k - 1);
    }
  }
}
