# Seat reservation: a verified model

A Dafny model of `reservation.py`, a command-line tool that books or cancels
a block of consecutive seats in a 20-row, 8-seat-per-row layout. Each row is
split into three sections ([0,1], [2,5], [6,7]), and a block may never straddle
two of them. The model covers the whole decision pipeline:

- `Decimal`: the digit strings the tool reads with `int()` and writes with `str()`.
- `Text`: `str.upper()` on the arguments and `str.strip()` on record lines.
- `Seats`: the row alphabet, the section table, `get_section` and `parse_seat_request`.
- `Evaluator`: `evaluate_reservation`, the all-or-nothing BOOK/CANCEL decision.
- `Store`: the text of the reservation record, as written by
  `save_reservations` (sorted, one seat per line) and read by
  `load_reservations` (strip each line, skip blank ones).
- `Driver`: the decision part of `main`, as a pure function `Invoke(args, reserved)`.
  It checks COUNT, then ACTION, then SEAT, evaluates the request, and applies
  the union (BOOK) or difference (CANCEL). It returns the outcome (`Usage`,
  `Error(message)`, `Fail` or `Success`) together with the set on record afterwards.
- `Scenarios`: concrete invocations and their results.

The reservation set is a `set<string>`, because the record file may hold any
line. Seats the tool produces are `SeatName(row, n)`, the row letter followed
by `str(n)`. The evaluator is a pure function, so it cannot change the set it
is given. The mutation happens only in `Driver.Apply`, and only on success.

A block is counted from its first seat. With B2 and B3 held, `CANCEL B2 2`
cancels both (`Scenarios.CancelHeldPair`). With a count of 3 it fails, because
B4 is not held (`Scenarios.CancelUnheldSeat`).

## Model

| member | source | states |
|---|---|---|
| Decimal.NatToString | reservation.py:78 | `str(n)` yields a non-empty digit string with no leading zero unless it is "0" |
| Decimal.ValueOfNatToString | reservation.py:78 | reading back the numeral `str` writes gives the same number |
| Decimal.NatToStringOfValue | reservation.py:78 | every canonical numeral is exactly what `str` writes for its value, so `str` and reading are inverse on canonical numerals |
| Decimal.ParseNatOfNatToString | reservation.py:52 | `int()` accepts every numeral `str` writes and returns its number |
| Decimal.NatToStringInjective | reservation.py:78 | different seat numbers are written differently |
| Decimal.ParseNat | reservation.py:52 | `int()` on a digit string: a number exactly for non-empty all-digit strings, and on a canonical numeral the number `str` writes back as that numeral |
| Decimal.ParseNatLeadingZero | reservation.py:52 | a leading zero does not change the number read, so "07" reads as 7 and "A07" names seat A7 |
| Text.SkipSpaces | reservation.py:17 | the scan from the front stops at the first character that is not whitespace, or at the end, having passed only whitespace |
| Text.CutSpaces | reservation.py:17 | the scan from the back stops after the last character that is not whitespace, never before the front scan's stop, having passed only whitespace |
| Text.Strip | reservation.py:17 | the stripped line is the line with a run of whitespace removed at each end: a contiguous slice, everything outside it whitespace, no whitespace at its own ends. It is empty exactly when the line is all whitespace, which are the blank lines `load_reservations` skips |
| Text.StripSpaceFree | reservation.py:17 | a line without whitespace is kept as it is |
| Text.StripIdempotent | reservation.py:17 | stripping a stripped line changes nothing |
| Text.Upper | reservation.py:96-97 | upper-casing keeps the length, turns each lower-case ASCII letter into its capital (32 code points lower) and leaves every other character alone |
| Text.UpperIdempotent | reservation.py:96-97 | upper-casing an upper-cased argument changes nothing |
| Seats.FirstContaining | reservation.py:61-64 | the loop over the table returns the first section in table order that contains the number, and `None` exactly when no section does |
| Seats.GetSection | reservation.py:60-64 | a number has a section exactly when it is in 0..7; that section is in `SECTIONS`, contains the number and is the only section that does |
| Seats.SectionsDisjoint | reservation.py:8 | the three sections are in increasing order and do not overlap |
| Seats.SectionsPartitionRow | reservation.py:8 | the sections together cover exactly 0..7 and no number lies in two of them |
| Seats.SeatName | reservation.py:78 | `f"{row}{n}"` is the row letter followed by the canonical numeral of n, which reads back as n |
| Seats.ParseSeatRequest | reservation.py:40-58 | a token is rejected if it is shorter than 2 or its first character is not in A–T; it is accepted exactly when, in addition, the rest is a numeral of value at most 7; an accepted result has the token's row and that value |
| Seats.ParseSeatName | reservation.py:40-58 | parsing the identifier of any seat of the aircraft gives that seat back |
| Seats.SeatNumberOutOfRange | reservation.py:53-54 | a seat number above 7, such as in "C9", is rejected for every row |
| Seats.SeatNameInjective | reservation.py:78 | two seat identifiers are equal exactly when row and number are |
| Evaluator.Scan | reservation.py:77-84 | the early-exit loop succeeds exactly when every seat of the block from the current index on is free (BOOK) or held (CANCEL) |
| Evaluator.Block | reservation.py:76-79 | the candidate list has `count` entries; the i-th is the row letter followed by the canonical numeral of `start + i`, as `f"{row}{n}"` writes it ("A1", never "A01") |
| Evaluator.Evaluate | reservation.py:67-86 | the decision succeeds exactly when the block fits in the section of its first seat and every seat admits the action. On success it returns exactly `count` seats, the i-th being row plus `start + i`, within 0..7. On failure it returns the empty list |
| Evaluator.FitsIffOneSection | reservation.py:68-74 | the end-of-section test passes exactly when one section holds both the first and the last seat of the block |
| Evaluator.AcceptedBlockInOneSection | reservation.py:68-74 | every seat of an accepted block lies in the section of its first seat |
| Evaluator.CrossingBlockRejected | reservation.py:73-74 | start 5 with count 2 is refused even when nothing is reserved |
| Evaluator.BlockDistinct | reservation.py:76-79 | the seats of a block are pairwise distinct, so they form a set of exactly `count` seats |
| Store.BelowFirstDifference | reservation.py:29 | Python's string `<`: `a` sorts before `b` exactly when, at the first position where they differ, `a` has the smaller code point, or `a` is a proper prefix of `b` |
| Store.BelowIrreflexive | reservation.py:29 | no string sorts before itself |
| Store.BelowTransitive | reservation.py:29 | string order is transitive |
| Store.BelowTotal | reservation.py:29 | any two different strings are ordered one way or the other |
| Store.LeastExists | reservation.py:29 | every non-empty set of strings has a least element |
| Store.SortedSeq | reservation.py:29 | `sorted(set)` lists every element of the set once, in strictly increasing order |
| Store.Collect | reservation.py:15-19 | the loaded set holds exactly the non-empty stripped lines |
| Store.Serialize | reservation.py:29-30 | every entry, the last included, is followed by a newline, so the text is empty or ends in one; when no entry holds a newline, the text splits back into exactly the sorted entries |
| Store.SplitLines | reservation.py:16 | no line holds a newline, and joining the lines with newlines gives the text back exactly, or, only when the text does not end in a newline, the text plus one; so an empty text has no lines and "a\n" has the single line "a" |
| Store.SplitJoinLines | reservation.py:15-30 | splitting newline-terminated lines without newlines gives back those lines |
| Store.CollectStorable | reservation.py:16-19 | reading lines that are non-empty and have no whitespace at their ends collects exactly those lines |
| Store.SerializeRoundTrip | reservation.py:15-30 | writing a set of non-empty lines with no newline and no whitespace at their ends, then loading the text, gives back the same set |
| Store.SerializeSorted | reservation.py:29-30 | the record lists the set one entry per line in strictly increasing order |
| Store.Load | reservation.py:12-20 | a missing record reads as no reservations; an existing record loads exactly the non-empty stripped forms of its lines; every loaded entry is a non-empty line with no newline and no whitespace at either end |
| Store.LoadSerializeLoad | reservation.py:12-30 | whatever was loaded from any record is saved and loaded back unchanged |
| Driver.ParseCount | reservation.py:99-103 | COUNT is accepted exactly when it is a numeral of value at least 1, and then it is that value |
| Driver.ParseAction | reservation.py:107 | ACTION is accepted exactly when it is BOOK or CANCEL, and the action it yields is named by that word |
| Driver.Validate | reservation.py:92-117 | fewer than three arguments give Usage. A bad COUNT gives the COUNT error whatever ACTION and SEAT hold. Then a bad ACTION gives the error naming it. Then a bad SEAT gives the seat error. Three arguments that all pass are accepted, as the request they spell, with a count of at least 1 and a seat in A–T, 0..7 |
| Driver.Apply | reservation.py:120-131 | the outcome is SUCCESS exactly when evaluation succeeds. FAIL leaves the set unchanged. A successful BOOK adds a block disjoint from the set. A successful CANCEL removes a block contained in it |
| Driver.Invoke | reservation.py:89-131 | Usage exactly when there are fewer than three arguments; an error exactly when validation rejects them, and then the very error validation chose (the COUNT message, the message naming the action, or the seat message); any outcome but SUCCESS leaves the record unchanged. An accepted request succeeds exactly when evaluation does, and then BOOK adds the block to the set and CANCEL removes it |
| Driver.BookThenCancel | reservation.py:120-126 | a successful BOOK followed by the CANCEL of the same block succeeds and restores the set exactly |
| Driver.CancelThenBook | reservation.py:120-126 | a successful CANCEL followed by the BOOK of the same block succeeds and restores the set exactly |
| Driver.SuccessChangesCountSeats | reservation.py:122-126 | a successful BOOK grows the set by exactly `count` seats; a successful CANCEL shrinks it by exactly `count` |
| Driver.ApplyKeepsSeatNames | reservation.py:122-126 | if the set holds only seat identifiers, so does the set after the update |
| Driver.InvokeCaseInsensitive | reservation.py:96-97 | ACTION and SEAT are case-insensitive: upper-casing them beforehand changes neither outcome nor record |
| Driver.ValidateRequestArgs | reservation.py:96-117 | any valid request written out as `ACTION SEAT COUNT` validates back to the same request |
| Driver.InvokeBookThenCancel | reservation.py:96-126 | on the command line, a successful BOOK followed by CANCEL with the same arguments succeeds and restores the record |
| Driver.StoreSurvivesRecord | reservation.py:112-128 | whatever record was loaded, the set `main` saves after any command reads back unchanged |
| Driver.SeatNameStorable | reservation.py:78 | a seat identifier is a non-empty line with no whitespace at its ends, so the record format keeps it intact |
| Scenarios.BookTwoOnEmpty | reservation.py:120-129 | `BOOK A0 2` on an empty record succeeds and records A0 and A1 |
| Scenarios.BookHeldSeat | reservation.py:81-82 | `BOOK A0 1` with A0 held prints FAIL and leaves the record unchanged |
| Scenarios.CancelHeldPair | reservation.py:83-86 | `CANCEL B2 2` with B2 and B3 held succeeds and empties the record |
| Scenarios.CancelUnheldSeat | reservation.py:83-84 | `CANCEL B2 3` with only B2 and B3 held prints FAIL, since B4 is not held |
| Scenarios.SeatNineRejected | reservation.py:114-117 | `BOOK C9 1` is rejected with the seat-format error |
| Scenarios.UnknownActionNamed | reservation.py:107-109 | `TWIRL A1 1` is rejected with an error naming TWIRL |
| Scenarios.CountCheckedFirst | reservation.py:99-105 | a bad COUNT is reported even when ACTION and SEAT are also bad |

## Left out

- File I/O in `load_reservations` and `save_reservations` (reservation.py:12-38): the existence test, `open`, `mkstemp`, `os.replace`, and removing the temporary file before re-raising. Atomic replacement is a guarantee of the operating system, so only the text of the record is modelled. A missing file is `None`.
- Process plumbing in `main`: reading `sys.argv`, printing, and the exit codes. These become the returned `Outcome`. `Usage` and `Error` stand for exit code 1, and `Fail` and `Success` for exit code 0.
- Cross-process lost updates: the source takes no lock, and the problem is one of concurrency.
- Decimal.ParseNat: accepts exactly the non-empty strings of ASCII digits, leading zeros allowed, and differs from Python's `int()` in both directions:
  - Python also accepts a sign, surrounding whitespace, underscores and non-ASCII digits. So `"A+3"`, `"A 3"`, `"A-0"` and a COUNT of `" 2"` are accepted by the source but rejected here. Negative COUNTs get the same COUNT error either way.
  - Python 3.11 and later, by default, refuses a numeral of more than 4300 digits, leading zeros included. The model has no digit limit. So a COUNT of more than 4300 digits, which the source answers with the COUNT error, is read here as its value: the request then gives `Fail` when that value cannot fit in a section, and can give `Success` when leading zeros make it small (4300 zeros followed by "2" books two seats). A seat token of "A", 4300 zeros and "3" is refused by the source but read as A3 here.
- Text.Upper: upper-cases ASCII letters only. Python's `str.upper()` also maps other characters, some of which become ASCII letters ("ı" to "I", "ſ" to "S"), and some change length ("ß" to "SS").
- Store.SplitLines: splits on `\n` only. Python's text mode also ends lines at `\r` and `\r\n`. Both are whitespace, and `strip` removes them from the ends of a line, but a lone `\r` inside a line would split it in Python and not here.
- Evaluator.Evaluate: requires `count >= 1`, the guard `main` applies before calling it (reservation.py:101). Evaluation with a count of 0 or less is not modelled; for a starting seat in 0..7 the source would return success with an empty list, and for any other starting seat failure with an empty list.
- Evaluator.Evaluate: takes the action as a two-valued datatype. `main` rejects any other ACTION before evaluating, so the source's behaviour on a third action string (neither branch fires, so it succeeds whenever the block fits its section) is not modelled.
