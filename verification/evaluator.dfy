/**
  `evaluate_reservation`: the all-or-nothing decision whether a block of
  `count` consecutive seats may be booked or cancelled. It is a pure function
  of the reservation set it is given and never changes that set.
*/
module Evaluator {
  import opened Wrappers
  import opened Seats
  import opened Decimal

  datatype Action = Book | Cancel

  /** The source's `(success, seats)` pair. */
  datatype Verdict = Verdict(ok: bool, seats: seq<string>)

  const Reject: Verdict := Verdict(false, [])

  /** Whether `action` may be applied to one seat: free for a booking, held for a cancellation. */
  predicate Admits(action: Action, reserved: set<string>, seat: string) {
    match action
    case Book => seat !in reserved
    case Cancel => seat in reserved
  }

  /** The identifiers of `count` consecutive seats of `row`, from `start` on. */
  function Block(row: char, start: nat, count: nat): (b: seq<string>)
    ensures |b| == count
    ensures forall i :: 0 <= i < |b| ==> |b[i]| >= 2 && b[i][0] == row && ParseNat(b[i][1..]) == Some(start + i)
    ensures forall i :: 0 <= i < |b| ==> Canonical(b[i][1..])
  {
    var b := seq(count, i requires 0 <= i < count => SeatName(row, start + i));
    assert forall i :: 0 <= i < |b| ==> b[i] == SeatName(row, start + i);
    b
  }

  /** The seats of a list, as a set. */
  function Elements(seats: seq<string>): set<string> {
    set i | 0 <= i < |seats| :: seats[i]
  }

  /** The section lookup and the end-of-section test of the source. */
  predicate Fits(start: int, count: int) {
    var s := GetSection(start);
    s.Some? && start + count - 1 <= s.value.end
  }

  /** The loop over the block from index `i` on, stopping at the first seat `action` may not touch. */
  function Scan(action: Action, reserved: set<string>, seats: seq<string>, i: nat): (ok: bool)
    requires i <= |seats|
    ensures ok <==> forall j :: i <= j < |seats| ==> Admits(action, reserved, seats[j])
    decreases |seats| - i
  {
    if i == |seats| then true
    else if !Admits(action, reserved, seats[i]) then false
    else Scan(action, reserved, seats, i + 1)
  }

  /**
    `evaluate_reservation(reserved, row, start, count, action)`. The source
    only calls it with `count >= 1`; that guard is a precondition here.
  */
  function Evaluate(reserved: set<string>, row: char, start: int, count: int, action: Action): (v: Verdict)
    requires count >= 1
    ensures !v.ok ==> v.seats == []
    ensures v.ok ==> 0 <= start && start + count - 1 <= LAST_SEAT
    ensures v.ok ==> |v.seats| == count
    ensures v.ok ==> forall i :: 0 <= i < |v.seats| ==> v.seats[i] == SeatName(row, start + i)
    ensures v.ok <==> Fits(start, count)
                      && forall k: nat :: start <= k < start + count ==> Admits(action, reserved, SeatName(row, k))
  {
    var section := GetSection(start);
    if section.None? then Reject
    else if start + count - 1 > section.value.end then Reject
    else
      var seats := Block(row, start, count);
      ScanBlock(action, reserved, row, start, count);
      if Scan(action, reserved, seats, 0) then Verdict(true, seats) else Reject
  }

  /** The loop over a block accepts exactly when every seat number of the block admits the action. */
  lemma ScanBlock(action: Action, reserved: set<string>, row: char, start: nat, count: nat)
    ensures Scan(action, reserved, Block(row, start, count), 0)
            <==> forall k: nat :: start <= k < start + count ==> Admits(action, reserved, SeatName(row, k))
  {
    var seats := Block(row, start, count);
    assert forall i :: 0 <= i < count ==> seats[i] == SeatName(row, start + i);
    if Scan(action, reserved, seats, 0) {
      forall k: nat | start <= k < start + count
        ensures Admits(action, reserved, SeatName(row, k))
      {
        assert seats[k - start] == SeatName(row, k);
      }
    }
  }

  /** A block fits exactly when one section of the table holds all of it. */
  lemma FitsIffOneSection(start: int, count: int)
    requires count >= 1
    ensures Fits(start, count) <==> exists s :: s in SECTIONS && s.Contains(start) && s.Contains(start + count - 1)
  {
    if exists s :: s in SECTIONS && s.Contains(start) && s.Contains(start + count - 1) {
      var s :| s in SECTIONS && s.Contains(start) && s.Contains(start + count - 1);
      SectionsPartitionRow(start);
    }
  }

  /** An accepted block never spans two sections: all its seats lie in the section of the first. */
  lemma AcceptedBlockInOneSection(reserved: set<string>, row: char, start: int, count: int, action: Action)
    requires count >= 1
    requires Evaluate(reserved, row, start, count, action).ok
    ensures forall k :: start <= k < start + count ==> GetSection(k) == GetSection(start)
  {
    forall k | start <= k < start + count
      ensures GetSection(k) == GetSection(start)
    {
      var s := GetSection(start).value;
      assert s.Contains(k);
    }
  }

  /** A block that crosses a section boundary is refused even on an empty plane: start 5, count 2. */
  lemma CrossingBlockRejected(row: char, action: Action)
    ensures !Evaluate({}, row, 5, 2, action).ok
  {
    assert GetSection(5) == Some(Section(2, 5));
  }

  /** A list without repetitions has as many distinct elements as entries. */
  lemma {:induction false} DistinctElements(seats: seq<string>)
    requires forall i, j :: 0 <= i < j < |seats| ==> seats[i] != seats[j]
    ensures |Elements(seats)| == |seats|
    decreases |seats|
  {
    if seats != [] {
      var n := |seats| - 1;
      var p := seats[..n];
      DistinctElements(p);
      assert Elements(seats) == Elements(p) + {seats[n]} by {
        forall x | x in Elements(seats)
          ensures x in Elements(p) + {seats[n]}
        {
          var i :| 0 <= i < |seats| && seats[i] == x;
          if i < n {
            assert p[i] == x;
          }
        }
      }
      assert seats[n] !in Elements(p);
    }
  }

  /** The seats of a block are pairwise distinct, so the block names exactly `count` seats. */
  lemma BlockDistinct(row: char, start: nat, count: nat)
    ensures forall i, j :: 0 <= i < j < count ==> Block(row, start, count)[i] != Block(row, start, count)[j]
    ensures |Elements(Block(row, start, count))| == count
  {
    var b := Block(row, start, count);
    forall i, j | 0 <= i < j < count
      ensures b[i] != b[j]
    {
      SeatNameInjective(row, start + i, row, start + j);
    }
    DistinctElements(b);
  }
}
