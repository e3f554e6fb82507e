/**
  The text of the reservation record: `save_reservations` writes the set
  sorted, one seat per line; `load_reservations` reads it back line by line,
  stripping each line and skipping blank ones. Only the text format is
  modelled; the file system calls around it are not.
*/
module Store {
  import opened Wrappers
  import opened Text

  /** `a` and `b` agree on their first `k` characters, and there `a` runs out first or has the smaller one. */
  predicate DiffersBelowAt(a: string, b: string, k: nat) {
    && k <= |a| && k <= |b| && a[..k] == b[..k]
    && ((k == |a| && k < |b|) || (k < |a| && k < |b| && a[k] < b[k]))
  }

  /** Python's `<` on strings: code point by code point, a proper prefix first. */
  predicate Below(a: string, b: string)
    decreases |a|
  {
    if a == [] then b != []
    else if b == [] then false
    else if a[0] != b[0] then a[0] < b[0]
    else Below(a[1..], b[1..])
  }

  /** `a` sorts before `b` exactly when they first differ with `a` smaller there, or `a` is a proper prefix of `b`. */
  lemma {:induction false} BelowFirstDifference(a: string, b: string)
    ensures Below(a, b) <==> exists k: nat :: DiffersBelowAt(a, b, k)
    decreases |a|
  {
    if a == [] {
      assert b != [] ==> DiffersBelowAt(a, b, 0);
    } else if b == [] {
    } else if a[0] != b[0] {
      assert forall k: nat :: 0 < k <= |a| && k <= |b| ==> a[..k][0] != b[..k][0];
      assert a[0] < b[0] ==> DiffersBelowAt(a, b, 0);
    } else {
      BelowFirstDifference(a[1..], b[1..]);
      if Below(a, b) {
        var k: nat :| DiffersBelowAt(a[1..], b[1..], k);
        assert a[..k + 1] == [a[0]] + a[1..][..k];
        assert b[..k + 1] == [b[0]] + b[1..][..k];
        assert DiffersBelowAt(a, b, k + 1);
      }
      if exists k: nat :: DiffersBelowAt(a, b, k) {
        var k: nat :| DiffersBelowAt(a, b, k);
        assert k > 0;
        assert a[1..][..k - 1] == a[..k][1..];
        assert b[1..][..k - 1] == b[..k][1..];
        assert DiffersBelowAt(a[1..], b[1..], k - 1);
      }
    }
  }

  lemma {:induction false} BelowIrreflexive(a: string)
    ensures !Below(a, a)
    decreases |a|
  {
    if a != [] {
      BelowIrreflexive(a[1..]);
    }
  }

  lemma {:induction false} BelowTransitive(a: string, b: string, c: string)
    requires Below(a, b) && Below(b, c)
    ensures Below(a, c)
    decreases |a|
  {
    if a != [] && b != [] && c != [] && a[0] == b[0] && b[0] == c[0] {
      BelowTransitive(a[1..], b[1..], c[1..]);
    }
  }

  lemma {:induction false} BelowTotal(a: string, b: string)
    ensures a == b || Below(a, b) || Below(b, a)
    decreases |a|
  {
    if a != [] && b != [] && a[0] == b[0] {
      BelowTotal(a[1..], b[1..]);
      if a[1..] == b[1..] {
        assert a == [a[0]] + a[1..] && b == [b[0]] + b[1..];
      }
    }
  }

  lemma BelowAsymmetric(a: string, b: string)
    requires Below(a, b)
    ensures !Below(b, a)
  {
    if Below(b, a) {
      BelowTransitive(a, b, a);
      BelowIrreflexive(a);
    }
  }

  /** `m` is the smallest element of `s`. */
  predicate IsLeast(m: string, s: set<string>) {
    m in s && forall x :: x in s && x != m ==> Below(m, x)
  }

  lemma {:induction false} LeastExists(s: set<string>)
    requires s != {}
    ensures exists m :: IsLeast(m, s)
    decreases |s|
  {
    var x :| x in s;
    if s != {x} {
      var rest := s - {x};
      LeastExists(rest);
      var m :| IsLeast(m, rest);
      BelowTotal(m, x);
      if Below(x, m) {
        forall y | y in s && y != x
          ensures Below(x, y)
        {
          if y != m {
            BelowTransitive(x, m, y);
          }
        }
        assert IsLeast(x, s);
      } else {
        assert IsLeast(m, s);
      }
    } else {
      assert IsLeast(x, s);
    }
  }

  lemma LeastUnique(s: set<string>)
    ensures forall a, b :: IsLeast(a, s) && IsLeast(b, s) ==> a == b
  {
    forall a, b | IsLeast(a, s) && IsLeast(b, s)
      ensures a == b
    {
      if a != b {
        BelowAsymmetric(a, b);
      }
    }
  }

  /** Strictly increasing under `Below`. */
  predicate Sorted(xs: seq<string>) {
    forall i, j :: 0 <= i < j < |xs| ==> Below(xs[i], xs[j])
  }

  /** Python's `sorted(s)` for a set of strings. */
  function SortedSeq(s: set<string>): (r: seq<string>)
    ensures |r| == |s|
    ensures forall x :: x in r <==> x in s
    ensures Sorted(r)
    decreases |s|
  {
    if s == {} then []
    else
      LeastExists(s);
      LeastUnique(s);
      var m :| IsLeast(m, s);
      var rest := SortedSeq(s - {m});
      var r := [m] + rest;
      assert Sorted(r) by {
        forall i, j | 0 <= i < j < |r|
          ensures Below(r[i], r[j])
        {
          if i > 0 {
            assert r[i] == rest[i - 1] && r[j] == rest[j - 1];
          } else {
            assert r[0] == m && r[j] == rest[j - 1];
            assert rest[j - 1] in s - {m};
          }
        }
      }
      r
  }

  /** Each string followed by a newline, in order: what the write loop emits. */
  function JoinLines(lines: seq<string>): (t: string)
    ensures t == [] || t[|t| - 1] == '\n'
    decreases |lines|
  {
    if lines == [] then [] else lines[0] + "\n" + JoinLines(lines[1..])
  }

  /** The text `save_reservations` writes for a set. */
  function Serialize(reserved: set<string>): (text: string)
    ensures (forall seat :: seat in reserved ==> '\n' !in seat) ==> SplitLines(text) == SortedSeq(reserved)
    ensures text == [] || text[|text| - 1] == '\n'
  {
    SortedSplitJoin(reserved);
    JoinLines(SortedSeq(reserved))
  }

  /** The position of the first newline of `text`, or its length if there is none. */
  function LineEnd(text: string): (k: nat)
    ensures k <= |text|
    ensures forall i :: 0 <= i < k ==> text[i] != '\n'
    ensures k < |text| ==> text[k] == '\n'
    decreases |text|
  {
    if text == [] || text[0] == '\n' then 0 else 1 + LineEnd(text[1..])
  }

  /**
    The lines of a text, as iterating over a file yields them, less their
    terminating newline (which `strip` removes anyway).
  */
  function SplitLines(text: string): (lines: seq<string>)
    ensures forall i :: 0 <= i < |lines| ==> '\n' !in lines[i]
    ensures JoinLines(lines) == text || (text != [] && text[|text| - 1] != '\n' && JoinLines(lines) == text + "\n")
    decreases |text|
  {
    if text == [] then []
    else
      var k := LineEnd(text);
      if k < |text| then
        var rest := SplitLines(text[k + 1..]);
        SplitStep(text, k, rest);
        assert '\n' !in text[..k];
        [text[..k]] + rest
      else
        assert '\n' !in text;
        [text]
  }

  /** Putting the first line back in front of the joined remaining lines restores the text. */
  lemma SplitStep(text: string, k: nat, rest: seq<string>)
    requires k < |text| && text[k] == '\n'
    requires var tail := text[k + 1..];
             || JoinLines(rest) == tail
             || (tail != [] && tail[|tail| - 1] != '\n' && JoinLines(rest) == tail + "\n")
    ensures var joined := JoinLines([text[..k]] + rest);
            joined == text || (text[|text| - 1] != '\n' && joined == text + "\n")
  {
    var tail := text[k + 1..];
    var lines := [text[..k]] + rest;
    assert lines[1..] == rest;
    assert text == text[..k] + "\n" + tail;
    if tail != [] {
      assert text[|text| - 1] == tail[|tail| - 1];
    }
  }

  /** Some line of `lines` strips to `x`. */
  predicate Listed(lines: seq<string>, x: string) {
    exists i :: 0 <= i < |lines| && Strip(lines[i]) == x
  }

  /** The loop of `load_reservations` over the lines: strip each, keep the non-blank ones. */
  function Collect(lines: seq<string>): (r: set<string>)
    ensures forall x :: x in r <==> x != [] && Listed(lines, x)
  {
    set i | 0 <= i < |lines| && Strip(lines[i]) != [] :: Strip(lines[i])
  }


  /** `load_reservations`: `None` is a missing record, which reads as no reservations. */
  function Load(record: Option<string>): (reserved: set<string>)
    ensures record.None? ==> reserved == {}
    ensures forall seat :: seat in reserved ==> Storable(seat)
    ensures record.Some? ==> forall x :: x in reserved <==> x != [] && Listed(SplitLines(record.value), x)
  {
    match record
    case None => {}
    case Some(text) =>
      var lines := SplitLines(text);
      var reserved := Collect(lines);
      assert forall seat :: seat in reserved ==> Storable(seat) by {
        forall seat | seat in reserved
          ensures Storable(seat)
        {
          assert Listed(lines, seat);
          var i :| 0 <= i < |lines| && Strip(lines[i]) == seat;
          StripKeepsOut(lines[i], '\n');
          StripIdempotent(lines[i]);
        }
      }
      reserved
  }

  /** A stripping removes no character that is not in the string to begin with. */
  lemma StripKeepsOut(s: string, c: char)
    requires c !in s
    ensures c !in Strip(s)
  {
    var i, j :| 0 <= i <= j <= |s| && Strip(s) == s[i..j];
    assert forall k :: 0 <= k < j - i ==> s[i..j][k] == s[i + k];
  }

  /**
    A line that survives the record format: non-empty, on one line, and with no
    whitespace at either end. Every entry `load_reservations` returns is one.
  */
  predicate Storable(seat: string) {
    seat != [] && '\n' !in seat && Strip(seat) == seat
  }

  lemma {:induction false} SplitJoinLines(lines: seq<string>)
    requires forall i :: 0 <= i < |lines| ==> '\n' !in lines[i]
    ensures SplitLines(JoinLines(lines)) == lines
    decreases |lines|
  {
    if lines != [] {
      var head := lines[0];
      var rest := JoinLines(lines[1..]);
      var text := JoinLines(lines);
      assert text == head + ("\n" + rest);
      LineEndAfter(head, rest);
      assert text[..|head|] == head;
      assert text[|head| + 1..] == rest;
      SplitJoinLines(lines[1..]);
      assert lines == [head] + lines[1..];
    }
  }

  /** When no entry holds a newline, splitting the joined sorted entries gives them back. */
  lemma SortedSplitJoin(reserved: set<string>)
    ensures (forall seat :: seat in reserved ==> '\n' !in seat)
            ==> SplitLines(JoinLines(SortedSeq(reserved))) == SortedSeq(reserved)
  {
    if forall seat :: seat in reserved ==> '\n' !in seat {
      var lines := SortedSeq(reserved);
      assert forall i :: 0 <= i < |lines| ==> lines[i] in reserved;
      SplitJoinLines(lines);
    }
  }

  lemma LineEndAfter(head: string, rest: string)
    requires '\n' !in head
    ensures LineEnd(head + ("\n" + rest)) == |head|
  {
    var text := head + ("\n" + rest);
    assert forall i :: 0 <= i < |head| ==> text[i] == head[i];
    assert text[|head|] == '\n';
  }

  /** Reading lines that are already stripped and non-blank collects exactly those lines. */
  lemma CollectStorable(lines: seq<string>)
    requires forall i :: 0 <= i < |lines| ==> Storable(lines[i])
    ensures forall x :: x in Collect(lines) <==> x in lines
  {
  }

  /** Writing a set of storable lines and reading the text back gives the same set. */
  lemma SerializeRoundTrip(reserved: set<string>)
    requires forall seat :: seat in reserved ==> Storable(seat)
    ensures Load(Some(Serialize(reserved))) == reserved
  {
    var text := Serialize(reserved);
    SerializeSorted(reserved);
    CollectSorted(reserved);
    assert Load(Some(text)) == Collect(SplitLines(text));
  }

  /** Collecting the sorted list of a set of storable lines gives the set back. */
  lemma CollectSorted(reserved: set<string>)
    requires forall seat :: seat in reserved ==> Storable(seat)
    ensures Collect(SortedSeq(reserved)) == reserved
  {
    var lines := SortedSeq(reserved);
    assert forall i :: 0 <= i < |lines| ==> Storable(lines[i]) by {
      forall i | 0 <= i < |lines|
        ensures Storable(lines[i])
      {
        assert lines[i] in reserved;
      }
    }
    CollectStorable(lines);
    SameMembers(Collect(lines), lines, reserved);
  }

  lemma SameMembers(s: set<string>, xs: seq<string>, t: set<string>)
    requires forall x :: x in s <==> x in xs
    requires forall x :: x in xs <==> x in t
    ensures s == t
  {
  }

  /** The written text lists the set in strictly increasing order, one entry per line. */
  lemma SerializeSorted(reserved: set<string>)
    requires forall seat :: seat in reserved ==> Storable(seat)
    ensures SplitLines(Serialize(reserved)) == SortedSeq(reserved)
    ensures Sorted(SplitLines(Serialize(reserved)))
  {
    assert forall seat :: seat in reserved ==> '\n' !in seat;
  }

  /** Whatever is loaded from a record is written and read back unchanged. */
  lemma LoadSerializeLoad(record: Option<string>)
    ensures Load(Some(Serialize(Load(record)))) == Load(record)
  {
    SerializeRoundTrip(Load(record));
  }
}
