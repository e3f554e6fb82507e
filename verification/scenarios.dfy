/** Concrete invocations of the tool: what each prints and what it leaves on record. */
module Scenarios {
  import opened Wrappers
  import opened Decimal
  import opened Text
  import opened Seats
  import opened Evaluator
  import opened Driver

  lemma SmallNumerals()
    ensures ParseNat("0") == Some(0) && ParseNat("1") == Some(1) && ParseNat("2") == Some(2)
    ensures ParseNat("3") == Some(3) && ParseNat("9") == Some(9)
    ensures NatToString(0) == "0" && NatToString(1) == "1" && NatToString(2) == "2"
    ensures NatToString(3) == "3" && NatToString(4) == "4"
  {
    assert Value("0") == Value("") * 10 + 0;
    assert Value("1") == Value("") * 10 + 1;
    assert Value("2") == Value("") * 10 + 2;
    assert Value("3") == Value("") * 10 + 3;
    assert Value("9") == Value("") * 10 + 9;
  }

  lemma PairElements(a: string, b: string)
    ensures Elements([a, b]) == {a, b}
  {
    var e := Elements([a, b]);
    assert [a, b][0] == a && [a, b][1] == b;
    assert a in e && b in e;
  }

  /** `BOOK A0 2` on an empty record books A0 and A1, filling the first section. */
  lemma BookTwoOnEmpty()
    ensures Invoke(["BOOK", "A0", "2"], {}) == Run(Success, {"A0", "A1"})
  {
    SmallNumerals();
    assert Upper("BOOK") == "BOOK";
    assert Upper("A0") == "A0";
    assert "A0"[1..] == "0";
    assert SeatName('A', 0) == "A0" && SeatName('A', 1) == "A1";
    var block := Block('A', 0, 2);
    assert block[0] == "A0" && block[1] == "A1";
    assert block == ["A0", "A1"];
    PairElements("A0", "A1");
  }

  /** `BOOK A0 1` while A0 is held prints FAIL and leaves the record alone. */
  lemma BookHeldSeat()
    ensures Invoke(["BOOK", "A0", "1"], {"A0"}) == Run(Fail, {"A0"})
  {
    SmallNumerals();
    assert Upper("BOOK") == "BOOK";
    assert Upper("A0") == "A0";
    assert "A0"[1..] == "0";
    assert SeatName('A', 0) == "A0";
  }

  /** `CANCEL B2 2` while B2 and B3 are held cancels exactly that block. */
  lemma CancelHeldPair()
    ensures Invoke(["CANCEL", "B2", "2"], {"B2", "B3"}) == Run(Success, {})
  {
    SmallNumerals();
    assert Upper("CANCEL") == "CANCEL";
    assert Upper("B2") == "B2";
    assert "B2"[1..] == "2";
    assert SeatName('B', 2) == "B2" && SeatName('B', 3) == "B3";
    var block := Block('B', 2, 2);
    assert block[0] == "B2" && block[1] == "B3";
    assert block == ["B2", "B3"];
    PairElements("B2", "B3");
  }

  /** `CANCEL B2 3` while only B2 and B3 are held prints FAIL: B4 is not held. */
  lemma CancelUnheldSeat()
    ensures Invoke(["CANCEL", "B2", "3"], {"B2", "B3"}) == Run(Fail, {"B2", "B3"})
  {
    SmallNumerals();
    assert Upper("CANCEL") == "CANCEL";
    assert Upper("B2") == "B2";
    assert "B2"[1..] == "2";
    assert SeatName('B', 4) == "B4";
    assert "B4" !in {"B2", "B3"};
  }

  /** `BOOK C9 1`: seat 9 does not exist, so the seat argument is rejected. */
  lemma SeatNineRejected()
    ensures Invoke(["BOOK", "C9", "1"], {}) == Run(Error(SEAT_ERROR), {})
  {
    SmallNumerals();
    assert Upper("BOOK") == "BOOK";
    assert Upper("C9") == "C9";
    assert "C9"[1..] == "9";
  }

  /** `TWIRL A1 1`: the error names the unknown action. */
  lemma UnknownActionNamed()
    ensures Invoke(["TWIRL", "A1", "1"], {}).outcome == Error("Error: Unknown action 'TWIRL'")
  {
    SmallNumerals();
    assert Upper("TWIRL") == "TWIRL";
  }

  /** A bad COUNT is reported before a bad ACTION or SEAT. */
  lemma CountCheckedFirst()
    ensures Invoke(["TWIRL", "Z9", "0"], {}).outcome == Error(COUNT_ERROR)
  {
    SmallNumerals();
  }
}
