/**
  Seat addresses and the section table: the 20 row letters, the three fixed
  sections of a row, section lookup, and the parser for tokens such as "C3".
*/
module Seats {
  import opened Wrappers
  import opened Decimal

  /** The row alphabet: 20 rows, A to T. */
  const ROWS: string := "ABCDEFGHIJKLMNOPQRST"

  /** The highest seat number in a row; seats are numbered from 0. */
  const LAST_SEAT: nat := 7

  /** An inclusive range of seat numbers. */
  datatype Section = Section(start: int, end: int) {
    predicate Contains(n: int) {
      start <= n <= end
    }
  }

  /** The three sections of every row, in table order: xx _ xxxx _ xx. */
  const SECTIONS: seq<Section> := [Section(0, 1), Section(2, 5), Section(6, 7)]

  /** A seat token that parsed: its row letter and seat number. */
  datatype SeatRequest = SeatRequest(row: char, number: nat)

  /** The canonical identifier of a seat, as `f"{row}{number}"` writes it. */
  function SeatName(row: char, number: nat): (s: string)
    ensures |s| >= 2 && s[0] == row && Canonical(s[1..])
    ensures ParseNat(s[1..]) == Some(number)
  {
    var s := [row] + NatToString(number);
    assert s[1..] == NatToString(number);
    ParseNatOfNatToString(number);
    s
  }

  /** A string that names a seat of the aircraft. */
  predicate IsSeatName(s: string) {
    exists row, number: nat :: row in ROWS && number <= LAST_SEAT && s == SeatName(row, number)
  }

  /** The first section of `table` containing `n`, scanning in table order. */
  function FirstContaining(table: seq<Section>, n: int): (r: Option<Section>)
    ensures r.Some? ==> r.value in table && r.value.Contains(n)
    ensures r.Some? ==> exists i :: 0 <= i < |table| && table[i] == r.value
                          && forall j :: 0 <= j < i ==> !table[j].Contains(n)
    ensures r.None? <==> forall s :: s in table ==> !s.Contains(n)
    decreases |table|
  {
    if table == [] then None
    else if table[0].Contains(n) then Some(table[0])
    else
      var r := FirstContaining(table[1..], n);
      assert forall s :: s in table ==> s == table[0] || s in table[1..];
      if r.Some? then
        assert exists i :: 0 <= i < |table| && table[i] == r.value
                             && forall j :: 0 <= j < i ==> !table[j].Contains(n) by {
          var i :| 0 <= i < |table[1..]| && table[1..][i] == r.value
                     && forall j :: 0 <= j < i ==> !table[1..][j].Contains(n);
          assert table[i + 1] == r.value;
          assert forall j :: 0 <= j < i + 1 ==> !table[j].Contains(n) by {
            forall j | 0 <= j < i + 1
              ensures !table[j].Contains(n)
            {
              if j > 0 {
                assert table[j] == table[1..][j - 1];
              }
            }
          }
        }
        r
      else
        r
  }

  /** The section a seat number lies in, or `None` if it lies in none. */
  function GetSection(n: int): (r: Option<Section>)
    ensures r.Some? <==> 0 <= n <= LAST_SEAT
    ensures r.Some? ==> r.value in SECTIONS && r.value.Contains(n)
    ensures r.Some? ==> forall s :: s in SECTIONS && s.Contains(n) ==> s == r.value
  {
    FirstContaining(SECTIONS, n)
  }

  /** The sections are listed in increasing order, with no overlap between them. */
  lemma SectionsDisjoint()
    ensures forall i, j :: 0 <= i < j < |SECTIONS| ==> SECTIONS[i].end < SECTIONS[j].start
  {
  }

  /** Every seat of a row lies in exactly one section, and nothing else lies in any. */
  lemma SectionsPartitionRow(n: int)
    ensures 0 <= n <= LAST_SEAT <==> exists s :: s in SECTIONS && s.Contains(n)
    ensures forall s, t :: s in SECTIONS && t in SECTIONS && s.Contains(n) && t.Contains(n) ==> s == t
  {
    if 0 <= n <= LAST_SEAT {
      assert GetSection(n).value in SECTIONS;
    }
  }

  /**
    `parse_seat_request`: a row letter followed by a seat number in 0..7.
    `None` stands for the source's `(None, None)`.
  */
  function ParseSeatRequest(token: string): (r: Option<SeatRequest>)
    ensures |token| < 2 ==> r.None?
    ensures |token| >= 1 && token[0] !in ROWS ==> r.None?
    ensures r.Some? <==> |token| >= 2 && token[0] in ROWS && ParseNat(token[1..]).Some?
                         && ParseNat(token[1..]).value <= LAST_SEAT
    ensures r.Some? ==> r.value.row == token[0] && Some(r.value.number) == ParseNat(token[1..])
    ensures r.Some? ==> r.value.row in ROWS && r.value.number <= LAST_SEAT
  {
    if |token| < 2 then None
    else
      var row := token[0];
      var rest := token[1..];
      if row !in ROWS then None
      else
        match ParseNat(rest)
        case None => None
        case Some(n) => if 0 <= n <= LAST_SEAT then Some(SeatRequest(row, n)) else None
  }

  /** Parsing a seat's own identifier gives the seat back. */
  lemma ParseSeatName(row: char, number: nat)
    requires row in ROWS && number <= LAST_SEAT
    ensures ParseSeatRequest(SeatName(row, number)) == Some(SeatRequest(row, number))
  {
    var s := SeatName(row, number);
    assert s[1..] == NatToString(number);
    ParseNatOfNatToString(number);
  }

  /** Seat identifiers are distinct for distinct seats. */
  lemma SeatNameInjective(r1: char, n1: nat, r2: char, n2: nat)
    ensures SeatName(r1, n1) == SeatName(r2, n2) <==> r1 == r2 && n1 == n2
  {
    if SeatName(r1, n1) == SeatName(r2, n2) {
      assert SeatName(r1, n1)[1..] == NatToString(n1);
      assert SeatName(r2, n2)[1..] == NatToString(n2);
      NatToStringInjective(n1, n2);
    }
  }

  /** A number above seven is refused whatever the row, e.g. "C9". */
  lemma SeatNumberOutOfRange(row: char, number: nat)
    requires number > LAST_SEAT
    ensures ParseSeatRequest(SeatName(row, number)).None?
  {
    var s := SeatName(row, number);
    assert s[1..] == NatToString(number);
    ParseNatOfNatToString(number);
  }
}
