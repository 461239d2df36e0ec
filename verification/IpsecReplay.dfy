/** IPsec anti-replay window and outbound sequence numbers
    (core/include/router/ipsec_replay.hpp, core/src/security/ipsec_replay.cpp).

    The 64-bit bitmap is modelled by its bits, least significant first, so shifts truncate at 64
    explicitly. The reference for the window is the unbounded set of sequences committed so far. */
module IpsecReplay {
  import opened Options

  const U32: nat := 0x1_0000_0000
  const U64: nat := 0x1_0000_0000_0000_0000

  type Low = x: nat | x < U32 witness 0
  type Sequence = x: nat | x < U64 witness 0
  type Word = w: seq<bool> | |w| == 64 witness seq(64, i => false)

  datatype Status = Admissible | ZeroSequence | Duplicate | TooOld | InvalidWindow | Exhausted

  datatype Candidate = Candidate(status: Status, sequence: Sequence)

  datatype Window = Window(highest: Sequence, bitmap: Word, width: nat, extended: bool)

  function Zero(): Word {
    seq(64, i => false)
  }

  function ShiftLeft(w: Word, n: nat): Word
    requires n < 64
  {
    seq(64, i requires 0 <= i < 64 => i >= n && w[i - n])
  }

  /** Keeps the bits below `width`. */
  function Mask(w: Word, width: nat): Word {
    seq(64, i requires 0 <= i < 64 => i < width && w[i])
  }

  // ---------------------------------------------------------------- implementation

  /** A width above 64 is stored as zero, which every operation rejects. */
  function Fresh(width: nat, extended: bool): Window {
    Window(0, Zero(), if width <= 64 then width else 0, extended)
  }

  function Reconstruct(w: Window, low: Low): (r: Option<Sequence>) {
    if w.width == 0 || (low == 0 && (!w.extended || w.highest == 0)) then None
    else if !w.extended || w.highest == 0 then Some(low)
    else
      var highestLow := w.highest % U32;
      var highestHigh := w.highest / U32;
      var behind := w.width - 1;
      if highestLow < behind then
        if low >= U32 - (behind - highestLow) then
          if highestHigh == 0 then None else Some((highestHigh - 1) * U32 + low)
        else Some(highestHigh * U32 + low)
      else if low < highestLow - behind then
        if highestHigh == U32 - 1 then None else Some((highestHigh + 1) * U32 + low)
      else Some(highestHigh * U32 + low)
  }

  function Check(w: Window, low: Low): (c: Candidate)
    requires w.width <= 64
  {
    if w.width == 0 then Candidate(InvalidWindow, 0)
    else
      match Reconstruct(w, low)
      case None => Candidate(if low == 0 then ZeroSequence else Exhausted, 0)
      case Some(sequence) =>
        if w.highest == 0 || sequence > w.highest then Candidate(Admissible, sequence)
        else
          var distance := w.highest - sequence;
          if distance >= w.width then Candidate(TooOld, sequence)
          else if w.bitmap[distance] then Candidate(Duplicate, sequence)
          else Candidate(Admissible, sequence)
  }

  /** The window after a commit, and whether the sequence was accepted. */
  function Commit(w: Window, sequence: Sequence): (r: (Window, bool))
    requires w.width <= 64
  {
    if w.width == 0 || sequence == 0 || (!w.extended && sequence > U32 - 1) then (w, false)
    else if w.highest == 0 then (w.(highest := sequence, bitmap := Zero()[0 := true]), true)
    else if sequence > w.highest then
      var advance := sequence - w.highest;
      var moved := if advance >= w.width then Zero()[0 := true]
                   else ShiftLeft(w.bitmap, advance)[0 := true];
      (w.(highest := sequence, bitmap := Mask(moved, w.width)), true)
    else
      var distance := w.highest - sequence;
      if distance >= w.width || w.bitmap[distance] then (w, false)
      else (w.(bitmap := w.bitmap[distance := true]), true)
  }

  function Restore(w: Window, highest: Sequence, bitmap: Word): (r: (Window, bool)) {
    if || w.width == 0
       || (!w.extended && highest > U32 - 1)
       || bitmap != Mask(bitmap, w.width)
       || ((highest == 0) != (bitmap == Zero()))
       || (highest != 0 && !bitmap[0])
    then (w, false)
    else (w.(highest := highest, bitmap := bitmap), true)
  }

  class ReplayWindow {
    var highest: Sequence
    var bitmap: Word
    const width: nat
    const extended: bool

    ghost predicate Valid() {
      width <= 64
    }

    ghost function State(): Window
      reads this
    {
      Window(highest, bitmap, width, extended)
    }

    constructor (width: nat, extended: bool)
      ensures Valid() && State() == Fresh(width, extended)
    {
      this.highest, this.bitmap := 0, Zero();
      this.width := if width <= 64 then width else 0;
      this.extended := extended;
    }

    method CheckLow(low: Low) returns (c: Candidate)
      requires Valid()
      ensures c == Check(State(), low)
    {
      if width == 0 {
        return Candidate(InvalidWindow, 0);
      }
      var reconstructed := Reconstruct(Window(highest, bitmap, width, extended), low);
      if reconstructed.None? {
        return Candidate(if low == 0 then ZeroSequence else Exhausted, 0);
      }
      var sequence := reconstructed.value;
      if highest == 0 || sequence > highest {
        return Candidate(Admissible, sequence);
      }
      var distance := highest - sequence;
      if distance >= width {
        return Candidate(TooOld, sequence);
      }
      return Candidate(if bitmap[distance] then Duplicate else Admissible, sequence);
    }

    method CommitSequence(sequence: Sequence) returns (ok: bool)
      requires Valid()
      modifies this
      ensures (State(), ok) == Commit(old(State()), sequence)
    {
      if width == 0 || sequence == 0 || (!extended && sequence > U32 - 1) {
        return false;
      }
      if highest == 0 {
        highest := sequence;
        bitmap := Zero()[0 := true];
        return true;
      }
      if sequence > highest {
        var advance := sequence - highest;
        if advance >= width {
          bitmap := Zero()[0 := true];
        } else {
          bitmap := ShiftLeft(bitmap, advance)[0 := true];
        }
        bitmap := Mask(bitmap, width);
        highest := sequence;
        return true;
      }
      var distance := highest - sequence;
      if distance >= width || bitmap[distance] {
        return false;
      }
      bitmap := bitmap[distance := true];
      return true;
    }

    method RestoreState(highest': Sequence, bitmap': Word) returns (ok: bool)
      modifies this
      ensures (State(), ok) == Restore(old(State()), highest', bitmap')
    {
      if || width == 0
         || (!extended && highest' > U32 - 1)
         || bitmap' != Mask(bitmap', width)
         || ((highest' == 0) != (bitmap' == Zero()))
         || (highest' != 0 && !bitmap'[0])
      {
        return false;
      }
      highest, bitmap := highest', bitmap';
      return true;
    }
  }

  // ---------------------------------------------------------------- sequence reconstruction

  /** Left edge of the window; negative while fewer sequences than its width have passed. */
  function Bottom(w: Window): int {
    w.highest - (w.width - 1)
  }

  lemma Split(q: nat)
    ensures q == q / U32 * U32 + q % U32
  {
  }

  /** Two sequences with equal low words inside one span of 2^32 are the same. */
  lemma OnePerSpan(p: nat, q: nat, base: int)
    requires p % U32 == q % U32
    requires base <= p < base + U32 && base <= q < base + U32
    ensures p == q
  {
    Split(p);
    Split(q);
  }

  /** With extended numbers, reconstruction returns exactly the sequence that has the received low
      word and lies in the 2^32 sequences starting at the window bottom, also when the window
      straddles a multiple of 2^32, and nothing if that sequence is not a 64-bit one. */
  lemma ReconstructIsUnique(w: Window, low: Low, q: nat)
    requires w.extended && w.highest > 0 && 0 < w.width <= 64
    ensures (Reconstruct(w, low) == Some(q))
       <==> (q % U32 == low && q < U64 && Bottom(w) <= q < Bottom(w) + U32)
  {
    Split(w.highest);
    match Reconstruct(w, low) {
      case Some(r) =>
        assert r % U32 == low && Bottom(w) <= r < Bottom(w) + U32;
        if q % U32 == low && Bottom(w) <= q < Bottom(w) + U32 {
          OnePerSpan(q, r, Bottom(w));
        }
      case None =>
        Split(q);
    }
  }

  // ---------------------------------------------------------------- refinement to a set

  /** `w` represents the set `s` of all sequences committed so far. */
  ghost predicate Tracks(w: Window, s: set<int>) {
    && w.width <= 64
    && (w.highest == 0 <==> s == {})
    && (w.highest != 0 ==> w.highest in s)
    && (forall q :: q in s ==> q <= w.highest)
    && (forall d {:trigger w.bitmap[d]} :: 0 <= d < 64 ==>
          (w.bitmap[d] <==> d < w.width && w.highest - d in s))
    && (!w.extended ==> w.highest < U32)
  }

  /** When the design promises to accept an authenticated sequence: it is a representable nonzero
      number, and it is beyond every committed one or inside the window and not committed. */
  ghost predicate Acceptable(w: Window, s: set<int>, q: int) {
    && w.width > 0
    && 0 < q
    && (!w.extended ==> q < U32)
    && (s == {} || q > w.highest || (w.highest - w.width < q && q !in s))
  }

  lemma FreshTracksNothing(width: nat, extended: bool)
    ensures Tracks(Fresh(width, extended), {})
  {
  }

  /** A commit accepts exactly the acceptable sequences, records an accepted one and nothing else,
      and changes nothing when it refuses. */
  lemma CommitRefinesSet(w: Window, s: set<int>, q: Sequence)
    requires Tracks(w, s)
    ensures var (w', ok) := Commit(w, q);
            && (ok <==> Acceptable(w, s, q))
            && (ok ==> q !in s && Tracks(w', s + {q}))
            && (!ok ==> w' == w)
  {
    var (w', ok) := Commit(w, q);
    if ok && q > w.highest {
      forall d | 0 <= d < 64
        ensures w'.bitmap[d] <==> d < w'.width && w'.highest - d in s + {q}
      {
        var advance := q - w.highest;
        if w.highest != 0 && d >= advance {
          assert w'.highest - d == w.highest - (d - advance);
        }
      }
    } else if ok {
      var distance := w.highest - q;
      forall d | 0 <= d < 64
        ensures w'.bitmap[d] <==> d < w'.width && w'.highest - d in s + {q}
      {
        assert w.bitmap[d] <==> d < w.width && w.highest - d in s;
      }
    }
  }

  /** The set that a restored bitmap stands for. */
  ghost function Recorded(highest: Sequence, bitmap: Word): set<int> {
    set d | 0 <= d < 64 && bitmap[d] :: highest - d
  }

  /** A restore either changes nothing or installs a window that represents its own bitmap, so no
      bit outside the configured width survives. */
  lemma RestoreTracks(w: Window, highest: Sequence, bitmap: Word)
    requires w.width <= 64
    ensures var (w', ok) := Restore(w, highest, bitmap);
            if ok then Tracks(w', Recorded(highest, bitmap)) else w' == w
  {
    var (w', ok) := Restore(w, highest, bitmap);
    if ok {
      var s := Recorded(highest, bitmap);
      forall d | 0 <= d < 64
        ensures bitmap[d] <==> d < w.width && highest - d in s
      {
        assert bitmap[d] == Mask(bitmap, w.width)[d];
        if highest - d in s {
          var e :| 0 <= e < 64 && bitmap[e] && highest - e == highest - d;
        }
      }
      if highest == 0 {
        assert forall d :: 0 <= d < 64 ==> bitmap[d] == Zero()[d];
      } else {
        assert bitmap[0] && highest - 0 in s;
      }
    }
  }

  /** Checkpointing the two exported words and restoring them gives the same window. */
  lemma RestoreRoundTrip(w: Window, s: set<int>)
    requires Tracks(w, s) && w.width > 0
    ensures Restore(Fresh(w.width, w.extended), w.highest, w.bitmap) == (w, true)
  {
    assert w.bitmap == Mask(w.bitmap, w.width);
    if w.highest == 0 {
      assert forall d {:trigger w.bitmap[d]} :: 0 <= d < 64 ==> !w.bitmap[d];
      assert w.bitmap == Zero();
    } else {
      assert w.bitmap[0];
      assert w.bitmap != Zero() by { assert !Zero()[0]; }
    }
  }

  /** The sequences that a received low word can stand for: all 32-bit ones while numbers are not extended
      or nothing has been committed, and otherwise the 2^32 from the bottom of the window up. */
  predicate InRange(w: Window, q: nat) {
    if !w.extended || w.highest == 0 then q < U32 else Bottom(w) <= q < Bottom(w) + U32
  }

  /** What the set of committed sequences says about a sequence. */
  ghost function Verdict(w: Window, s: set<int>, q: int): Status {
    if Acceptable(w, s, q) then Admissible else if q <= w.highest - w.width then TooOld else Duplicate
  }

  /** Check finds the true sequence of a packet if and only if it is in range, and then gives the verdict of
      the set, in both modes, for the first packet and for old ones alike. */
  lemma CheckAnswersForTrueSequence(w: Window, s: set<int>, q: Sequence)
    requires Tracks(w, s) && 0 < q
    ensures w.width == 0 ==> Check(w, q % U32).status == InvalidWindow
    ensures w.width > 0 ==> (Check(w, q % U32).sequence == q <==> InRange(w, q))
    ensures w.width > 0 && InRange(w, q) ==> Check(w, q % U32) == Candidate(Verdict(w, s, q), q)
  {
    if w.width > 0 {
      var low := q % U32;
      if w.extended && w.highest > 0 {
        ReconstructIsUnique(w, low, q);
      } else {
        Split(q);
      }
      if Reconstruct(w, low) == Some(q) && 0 < w.highest && q <= w.highest && w.highest - q < w.width {
        assert w.bitmap[w.highest - q] <==> w.highest - (w.highest - q) in s;
      }
    }
  }

  /** An admissible candidate is then refused by commit exactly when it is the zero sequence, which
      happens exactly for a zero low word under extended numbers while the highest sequence is still
      below the width; unless a restored bitmap already records sequence zero, which makes it a duplicate. */
  lemma AdmissibleMeansCommittable(w: Window, s: set<int>, low: Low)
    requires Tracks(w, s)
    ensures var c := Check(w, low);
            && (c.status == Admissible && !Commit(w, c.sequence).1
                <==> w.extended && low == 0 && 0 < w.highest < w.width && 0 !in s)
            && (c.status == Duplicate ==> c.sequence in s)
            && (c.status != Admissible && c.status != ZeroSequence && c.status != Exhausted ==>
                  !Commit(w, c.sequence).1)
  {
    var c := Check(w, low);
    Split(w.highest);
    if w.width > 0 && Reconstruct(w, low).Some? {
      CommitRefinesSet(w, s, c.sequence);
      if w.extended && w.highest > 0 {
        ReconstructIsUnique(w, low, c.sequence);
        if low == 0 && w.highest < w.width {
          ReconstructIsUnique(w, 0, 0);
        }
      }
      if 0 < w.highest && c.sequence <= w.highest && w.highest - c.sequence < w.width {
        assert w.bitmap[w.highest - c.sequence] <==> w.highest - (w.highest - c.sequence) in s;
      }
    }
  }

  /** The zero case is real: after one packet, a forged zero low word is called admissible. */
  lemma ZeroIsCalledAdmissible()
    ensures var w := Commit(Fresh(64, true), 1).0;
            Check(w, 0) == Candidate(Admissible, 0) && !Commit(w, 0).1
  {
    var w := Commit(Fresh(64, true), 1).0;
    assert w.highest == 1 && !w.bitmap[1];
  }

  // ---------------------------------------------------------------- runs

  /** The sequences accepted while `offered` is committed one by one. */
  function Accepted(w: Window, offered: seq<Sequence>): (r: seq<Sequence>)
    requires w.width <= 64
    decreases |offered|
  {
    if offered == [] then []
    else
      var (w', ok) := Commit(w, offered[0]);
      (if ok then [offered[0]] else []) + Accepted(w', offered[1..])
  }

  /** The window after `offered` has been committed one by one. */
  function Final(w: Window, offered: seq<Sequence>): (r: Window)
    requires w.width <= 64
    ensures r.width == w.width && r.extended == w.extended
    decreases |offered|
  {
    if offered == [] then w else Final(Commit(w, offered[0]).0, offered[1..])
  }

  ghost function Members(accepted: seq<int>): set<int> {
    set q | q in accepted
  }

  /** After any run the window represents what was committed before and what the run accepted. */
  lemma {:induction false} RunRefinesSet(w: Window, s: set<int>, offered: seq<Sequence>)
    requires Tracks(w, s)
    ensures Tracks(Final(w, offered), s + Members(Accepted(w, offered)))
    decreases |offered|
  {
    if offered == [] {
      assert s + Members(Accepted(w, offered)) == s;
    } else {
      hide Tracks;
      TracksWidth(w, s);
      var q, rest := offered[0], offered[1..];
      var (w', ok) := Commit(w, q);
      CommitRefinesSet(w, s, q);
      hide Commit, Acceptable;
      var later := Accepted(w', rest);
      RunRefinesSet(w', if ok then s + {q} else s, rest);
      if ok {
        assert Accepted(w, offered) == [q] + later;
        assert s + Members([q] + later) == (s + {q}) + Members(later);
      } else {
        assert Accepted(w, offered) == [] + later == later;
      }
    }
  }

  lemma TracksWidth(w: Window, s: set<int>)
    requires Tracks(w, s)
    ensures w.width <= 64
  {
  }

  /** Over every run from a new window, check agrees with the set of all sequences accepted so far. */
  lemma CheckAgreesOverRuns(width: nat, extended: bool, offered: seq<Sequence>, q: Sequence)
    requires 0 < width <= 64 && 0 < q
    ensures var w, s := Final(Fresh(width, extended), offered), Members(Accepted(Fresh(width, extended), offered));
            && Tracks(w, s)
            && (Check(w, q % U32).sequence == q <==> InRange(w, q))
            && (InRange(w, q) ==> Check(w, q % U32) == Candidate(Verdict(w, s, q), q))
  {
    FreshTracksNothing(width, extended);
    var blank := Fresh(width, extended);
    RunRefinesSet(blank, {}, offered);
    var s := Members(Accepted(blank, offered));
    assert {} + s == s;
    hide Tracks, Check, Final, Accepted;
    CheckAnswersForTrueSequence(Final(blank, offered), s, q);
  }

  ghost predicate NewAndDistinct(accepted: seq<int>, s: set<int>) {
    && (forall i :: 0 <= i < |accepted| ==> accepted[i] !in s)
    && (forall i, j :: 0 <= i < j < |accepted| ==> accepted[i] != accepted[j])
  }

  /** However often and in whatever order packets arrive, no sequence is accepted twice, and none
      that was committed before the run is accepted again. */
  lemma {:induction false} NoSequenceTwice(w: Window, s: set<int>, offered: seq<Sequence>)
    requires Tracks(w, s)
    ensures NewAndDistinct(Accepted(w, offered), s)
    decreases |offered|
  {
    if offered != [] {
      var (w', ok) := Commit(w, offered[0]);
      CommitRefinesSet(w, s, offered[0]);
      var rest := Accepted(w', offered[1..]);
      if ok {
        var s' := s + {offered[0]};
        NoSequenceTwice(w', s', offered[1..]);
        assert Accepted(w, offered) == [offered[0]] + rest;
        forall i | 0 <= i < |rest|
          ensures rest[i] !in s && rest[i] != offered[0]
        {
          assert rest[i] !in s';
        }
      } else {
        NoSequenceTwice(w', s, offered[1..]);
        assert Accepted(w, offered) == [] + rest == rest;
      }
    }
  }

  // ---------------------------------------------------------------- outbound sequences

  class OutboundSequence {
    var current: Sequence
    const extended: bool

    /** The last sequence that may be used before the association must be replaced. */
    function Limit(): Sequence {
      if extended then U64 - 1 else U32 - 1
    }

    ghost predicate Valid()
      reads this
    {
      current <= Limit()
    }

    constructor (extended: bool)
      ensures Valid() && current == 0 && this.extended == extended
    {
      this.current, this.extended := 0, extended;
    }

    /** Every call gives the successor of the last one; the counter never wraps. */
    method Next() returns (r: Option<Sequence>)
      requires Valid()
      modifies this
      ensures Valid()
      ensures r == if old(current) < Limit() then Some(old(current) + 1) else None
      ensures current == if r.Some? then r.value else old(current)
    {
      if current == Limit() {
        return None;
      }
      current := current + 1;
      return Some(current);
    }

    method RestoreCurrent(value: Sequence) returns (ok: bool)
      requires Valid()
      modifies this
      ensures Valid() && (ok <==> value <= Limit())
      ensures current == if ok then value else old(current)
    {
      if !extended && value > U32 - 1 {
        return false;
      }
      current := value;
      return true;
    }
  }
}
