/**
  The decision-and-mutation part of `main`: argument validation in the
  source's order (COUNT, then ACTION, then SEAT), evaluation, and the update
  of the reservation set. Reading `sys.argv`, printing and exiting become the
  returned `Outcome`; loading the record becomes the `reserved` parameter, and
  the set returned with `Success` is the one `main` persists.
*/
module Driver {
  import opened Wrappers
  import opened Decimal
  import opened Text
  import opened Seats
  import opened Evaluator
  import Store

  /** What the user sees: the usage text, an error line, or `FAIL` / `SUCCESS` on standard output. */
  datatype Outcome = Usage | Error(message: string) | Fail | Success

  /** The outcome of one invocation and the reservation set on record after it. */
  datatype Run = Run(outcome: Outcome, store: set<string>)

  /** A request whose three arguments all validated. */
  datatype Request = Request(action: Action, seat: SeatRequest, count: nat)

  /** The result of argument validation: a request, or the outcome that ends the run. */
  datatype Validation = Rejected(outcome: Outcome) | Accepted(request: Request)

  const COUNT_ERROR: string := "Error: COUNT must be a valid integer greater than 0"
  const SEAT_ERROR: string := "Error: Invalid seat format"

  function UnknownActionError(action: string): string {
    "Error: Unknown action '" + action + "'"
  }

  /** The action an upper-cased ACTION argument names, if it is one of the two. */
  function ParseAction(word: string): (r: Option<Action>)
    ensures r.None? <==> word != "BOOK" && word != "CANCEL"
    ensures r.Some? ==> ActionName(r.value) == word
  {
    if word == "BOOK" then Some(Book)
    else if word == "CANCEL" then Some(Cancel)
    else None
  }

  /** The word that names an action on the command line. */
  function ActionName(action: Action): string {
    match action
    case Book => "BOOK"
    case Cancel => "CANCEL"
  }

  /** COUNT as `main` reads it: an integer, at least 1. */
  function ParseCount(arg: string): (r: Option<nat>)
    ensures r.Some? <==> ParseNat(arg).Some? && ParseNat(arg).value >= 1
    ensures r.Some? ==> r.value >= 1 && ParseNat(arg) == r
  {
    match ParseNat(arg)
    case None => None
    case Some(n) => if n < 1 then None else Some(n)
  }

  /**
    Argument validation of `main`. `args` are the arguments after the program
    name; anything after the third is ignored, as in the source.
  */
  function Validate(args: seq<string>): (v: Validation)
    ensures v == Rejected(Usage) <==> |args| < 3
    ensures |args| >= 3 && ParseCount(args[2]).None? ==> v == Rejected(Error(COUNT_ERROR))
    ensures |args| >= 3 && ParseCount(args[2]).Some? && ParseAction(Upper(args[0])).None?
            ==> v == Rejected(Error(UnknownActionError(Upper(args[0]))))
    ensures |args| >= 3 && ParseCount(args[2]).Some? && ParseAction(Upper(args[0])).Some?
            && ParseSeatRequest(Upper(args[1])).None?
            ==> v == Rejected(Error(SEAT_ERROR))
    ensures |args| >= 3 && ParseCount(args[2]).Some? && ParseAction(Upper(args[0])).Some?
            && ParseSeatRequest(Upper(args[1])).Some?
            ==> v.Accepted?
    ensures v.Accepted? ==> && |args| >= 3
                            && Some(v.request.count) == ParseCount(args[2])
                            && Some(v.request.action) == ParseAction(Upper(args[0]))
                            && Some(v.request.seat) == ParseSeatRequest(Upper(args[1]))
    ensures v.Accepted? ==> v.request.count >= 1 && v.request.seat.row in ROWS
                            && v.request.seat.number <= LAST_SEAT
  {
    if |args| < 3 then Rejected(Usage)
    else
      match ParseCount(args[2])
      case None => Rejected(Error(COUNT_ERROR))
      case Some(count) =>
        var word := Upper(args[0]);
        match ParseAction(word)
        case None => Rejected(Error(UnknownActionError(word)))
        case Some(action) =>
          match ParseSeatRequest(Upper(args[1]))
          case None => Rejected(Error(SEAT_ERROR))
          case Some(seat) => Accepted(Request(action, seat, count))
  }

  /** The block a request names. */
  function RequestedSeats(req: Request): seq<string> {
    Block(req.seat.row, req.seat.number, req.count)
  }

  /** Evaluation and, on success, the set update of `main`. */
  function Apply(reserved: set<string>, req: Request): (r: Run)
    requires req.count >= 1
    ensures r.outcome == Success || r.outcome == Fail
    ensures r.outcome == Success <==> Evaluate(reserved, req.seat.row, req.seat.number, req.count, req.action).ok
    ensures r.outcome == Fail ==> r.store == reserved
    ensures r.outcome == Success && req.action == Book
            ==> r.store == reserved + Elements(RequestedSeats(req)) && reserved !! Elements(RequestedSeats(req))
    ensures r.outcome == Success && req.action == Cancel
            ==> r.store == reserved - Elements(RequestedSeats(req)) && Elements(RequestedSeats(req)) <= reserved
  {
    var verdict := Evaluate(reserved, req.seat.row, req.seat.number, req.count, req.action);
    if verdict.ok then
      assert verdict.seats == RequestedSeats(req);
      match req.action
      case Book => Run(Success, reserved + Elements(verdict.seats))
      case Cancel => Run(Success, reserved - Elements(verdict.seats))
    else
      Run(Fail, reserved)
  }

  /** One invocation of the tool on `args`, given the set loaded from the record. */
  function Invoke(args: seq<string>, reserved: set<string>): (r: Run)
    ensures r.outcome == Usage <==> |args| < 3
    ensures r.outcome != Success ==> r.store == reserved
    ensures r.outcome.Error? <==> Validate(args).Rejected? && |args| >= 3
    ensures r.outcome.Success? || r.outcome.Fail? <==> Validate(args).Accepted?
    ensures Validate(args).Rejected? ==> r.outcome == Validate(args).outcome
    ensures Validate(args).Accepted? ==>
              var q := Validate(args).request;
              && (r.outcome == Success <==> Evaluate(reserved, q.seat.row, q.seat.number, q.count, q.action).ok)
              && (r.outcome == Success && q.action == Book ==> r.store == reserved + Elements(RequestedSeats(q)))
              && (r.outcome == Success && q.action == Cancel ==> r.store == reserved - Elements(RequestedSeats(q)))
  {
    match Validate(args)
    case Rejected(outcome) => Run(outcome, reserved)
    case Accepted(req) => Apply(reserved, req)
  }

  /** A booking immediately followed by the cancellation of the same block restores the set. */
  lemma BookThenCancel(reserved: set<string>, row: char, number: nat, count: nat)
    requires count >= 1
    requires Apply(reserved, Request(Book, SeatRequest(row, number), count)).outcome == Success
    ensures Apply(Apply(reserved, Request(Book, SeatRequest(row, number), count)).store,
                  Request(Cancel, SeatRequest(row, number), count))
            == Run(Success, reserved)
  {
    var seats := Elements(Block(row, number, count));
    var booked := reserved + seats;
    assert Evaluate(booked, row, number, count, Cancel).ok by {
      forall k: nat | number <= k < number + count
        ensures SeatName(row, k) in booked
      {
        assert Block(row, number, count)[k - number] == SeatName(row, k);
      }
    }
    assert booked - seats == reserved;
  }

  /** A cancellation immediately followed by the booking of the same block restores the set. */
  lemma CancelThenBook(reserved: set<string>, row: char, number: nat, count: nat)
    requires count >= 1
    requires Apply(reserved, Request(Cancel, SeatRequest(row, number), count)).outcome == Success
    ensures Apply(Apply(reserved, Request(Cancel, SeatRequest(row, number), count)).store,
                  Request(Book, SeatRequest(row, number), count))
            == Run(Success, reserved)
  {
    var seats := Elements(Block(row, number, count));
    var cancelled := reserved - seats;
    assert Evaluate(cancelled, row, number, count, Book).ok by {
      forall k: nat | number <= k < number + count
        ensures SeatName(row, k) !in cancelled
      {
        assert Block(row, number, count)[k - number] == SeatName(row, k);
      }
    }
    assert cancelled + seats == reserved;
  }

  /** A successful booking adds exactly `count` seats; a successful cancellation removes exactly `count`. */
  lemma SuccessChangesCountSeats(reserved: set<string>, req: Request)
    requires req.count >= 1
    requires Apply(reserved, req).outcome == Success
    ensures req.action == Book ==> |Apply(reserved, req).store| == |reserved| + req.count
    ensures req.action == Cancel ==> |Apply(reserved, req).store| == |reserved| - req.count
  {
    BlockDistinct(req.seat.row, req.seat.number, req.count);
  }

  /** Every seat `main` adds to the record is a seat of the aircraft, so a record of seats stays one. */
  lemma ApplyKeepsSeatNames(reserved: set<string>, req: Request)
    requires req.count >= 1 && req.seat.row in ROWS
    requires forall s :: s in reserved ==> IsSeatName(s)
    ensures forall s :: s in Apply(reserved, req).store ==> IsSeatName(s)
  {
    var r := Apply(reserved, req);
    if r.outcome == Success && req.action == Book {
      BlockSeatNames(req.seat.row, req.seat.number, req.count);
    }
  }

  /** A block that ends by the last seat of a row is made of seats of the aircraft. */
  lemma BlockSeatNames(row: char, start: nat, count: nat)
    requires row in ROWS && start + count - 1 <= LAST_SEAT
    ensures forall s :: s in Elements(Block(row, start, count)) ==> IsSeatName(s)
  {
    forall s | s in Elements(Block(row, start, count))
      ensures IsSeatName(s)
    {
      var i :| 0 <= i < count && Block(row, start, count)[i] == s;
      assert s == SeatName(row, start + i);
    }
  }

  /** ACTION and SEAT are case-insensitive: upper-casing them first changes nothing. */
  lemma InvokeCaseInsensitive(args: seq<string>, reserved: set<string>)
    requires |args| >= 3
    ensures Invoke(args, reserved) == Invoke(args[0 := Upper(args[0])][1 := Upper(args[1])], reserved)
  {
    UpperIdempotent(args[0]);
    UpperIdempotent(args[1]);
  }

  /** Every valid request survives being written out as three arguments and validated again. */
  lemma ValidateRequestArgs(req: Request)
    requires req.count >= 1 && req.seat.row in ROWS && req.seat.number <= LAST_SEAT
    ensures Validate([ActionName(req.action), SeatName(req.seat.row, req.seat.number), NatToString(req.count)])
            == Accepted(req)
  {
    var args := [ActionName(req.action), SeatName(req.seat.row, req.seat.number), NatToString(req.count)];
    ParseNatOfNatToString(req.count);
    ParseSeatName(req.seat.row, req.seat.number);
    assert Upper(args[0]) == args[0];
    assert Upper(args[1]) == args[1] by {
      assert 'A' <= req.seat.row <= 'T' by {
        var i :| 0 <= i < |ROWS| && ROWS[i] == req.seat.row;
      }
    }
  }

  /**
    At the command line: `BOOK seat n` that succeeds, followed by `CANCEL seat n`,
    succeeds and leaves the record as it was.
  */
  lemma InvokeBookThenCancel(args: seq<string>, reserved: set<string>)
    requires |args| >= 3 && Upper(args[0]) == "BOOK"
    requires Invoke(args, reserved).outcome == Success
    ensures Invoke(args[0 := "CANCEL"], Invoke(args, reserved).store) == Run(Success, reserved)
  {
    var req := Validate(args).request;
    var cancel := args[0 := "CANCEL"];
    assert Upper(cancel[0]) == "CANCEL";
    assert Validate(cancel) == Accepted(req.(action := Cancel));
    BookThenCancel(reserved, req.seat.row, req.seat.number, req.count);
  }

  /** Whatever `main` saves after loading a record is read back unchanged by the next load. */
  lemma StoreSurvivesRecord(args: seq<string>, record: Option<string>)
    ensures var after := Invoke(args, Store.Load(record)).store;
            Store.Load(Some(Store.Serialize(after))) == after
  {
    var reserved := Store.Load(record);
    InvokeKeepsStorable(args, reserved);
    Store.SerializeRoundTrip(Invoke(args, reserved).store);
  }

  /** If every entry of the set fits the record format, every entry after a command does too. */
  lemma InvokeKeepsStorable(args: seq<string>, reserved: set<string>)
    requires forall s :: s in reserved ==> Store.Storable(s)
    ensures forall s :: s in Invoke(args, reserved).store ==> Store.Storable(s)
  {
    if Validate(args).Accepted? {
      ApplyKeepsStorable(reserved, Validate(args).request);
    }
  }

  lemma ApplyKeepsStorable(reserved: set<string>, q: Request)
    requires q.count >= 1 && q.seat.row in ROWS
    requires forall s :: s in reserved ==> Store.Storable(s)
    ensures forall s :: s in Apply(reserved, q).store ==> Store.Storable(s)
  {
    RowNotSpace(q.seat.row);
    BlockStorable(q.seat.row, q.seat.number, q.count);
    assert Apply(reserved, q).store <= reserved + Elements(RequestedSeats(q));
  }

  /** Every seat of a block fits the record format. */
  lemma BlockStorable(row: char, start: nat, count: nat)
    requires !IsSpace(row)
    ensures forall s :: s in Elements(Block(row, start, count)) ==> Store.Storable(s)
  {
    forall s | s in Elements(Block(row, start, count))
      ensures Store.Storable(s)
    {
      var i :| 0 <= i < count && Block(row, start, count)[i] == s;
      SeatNameStorable(row, start + i);
    }
  }

  /** Row letters are not whitespace. */
  lemma RowNotSpace(row: char)
    requires row in ROWS
    ensures !IsSpace(row)
  {
    var i :| 0 <= i < |ROWS| && ROWS[i] == row;
  }

  /** A seat identifier is one non-blank line with no whitespace at its ends, so the record keeps it intact. */
  lemma SeatNameStorable(row: char, number: nat)
    requires !IsSpace(row)
    ensures Store.Storable(SeatName(row, number))
  {
    var s := SeatName(row, number);
    assert forall i :: 1 <= i < |s| ==> s[i] == s[1..][i - 1];
    assert SpaceFree(s);
    StripSpaceFree(s);
    assert IsSpace('\n');
  }
}
