/** The candidate list that getPossibilities keeps as a string of digit
    characters ("123456789", one character per digit). Since every value
    involved is a single digit, the string is modelled as the sequence of
    those digits, in the same order; `contains` is `in` and
    `replace(d, "")` is `Without`. */
module DigitList {

  /** The initial candidate string "123456789". */
  function Digits(): seq<int>
  {
    [1, 2, 3, 4, 5, 6, 7, 8, 9]
  }

  /** Every entry is a digit 1..9. */
  predicate AllDigits(s: seq<int>)
  {
    forall i :: 0 <= i < |s| ==> 1 <= s[i] <= 9
  }

  predicate StrictlyAscending(s: seq<int>)
  {
    forall i, j :: 0 <= i < j < |s| ==> s[i] < s[j]
  }

  /** `s` with every occurrence of `v` removed (String.replace of a one-digit
      string by the empty string). */
  function Without(s: seq<int>, v: int): (r: seq<int>)
    ensures forall u :: u in r <==> u in s && u != v
  {
    if s == [] then []
    else (if s[0] == v then [] else [s[0]]) + Without(s[1..], v)
  }

  /** The elements of `s`, in their order, that occur nowhere in `peers`. */
  function KeepAbsent(s: seq<int>, peers: seq<int>): (r: seq<int>)
    ensures forall u :: u in r <==> u in s && u !in peers
  {
    if s == [] then []
    else (if s[0] in peers then [] else [s[0]]) + KeepAbsent(s[1..], peers)
  }

  /** Removing one more value from a filtered list is filtering by one more peer. */
  lemma {:induction false} WithoutKeepAbsent(s: seq<int>, peers: seq<int>, v: int)
    ensures Without(KeepAbsent(s, peers), v) == KeepAbsent(s, peers + [v])
  {
    if s != [] {
      WithoutKeepAbsent(s[1..], peers, v);
      var head := if s[0] in peers then [] else [s[0]];
      assert KeepAbsent(s, peers) == head + KeepAbsent(s[1..], peers);
      WithoutConcat(head, KeepAbsent(s[1..], peers), v);
    }
  }

  lemma {:induction false} WithoutConcat(a: seq<int>, b: seq<int>, v: int)
    ensures Without(a + b, v) == Without(a, v) + Without(b, v)
  {
    if a != [] {
      assert (a + b)[1..] == a[1..] + b;
      WithoutConcat(a[1..], b, v);
    } else {
      assert a + b == b;
    }
  }

  /** Removing a value that is not there changes nothing (the `contains`
      test that guards each `replace`). */
  lemma {:induction false} WithoutAbsent(s: seq<int>, v: int)
    requires v !in s
    ensures Without(s, v) == s
  {
    if s != [] {
      assert s[1..] + [] == s[1..];
      WithoutAbsent(s[1..], v);
      assert s == [s[0]] + s[1..];
    }
  }

  /** Only which values the peers hold matters, not their order or repetition. */
  lemma {:induction false} KeepAbsentSameMembers(s: seq<int>, p: seq<int>, q: seq<int>)
    requires forall u :: u in p <==> u in q
    ensures KeepAbsent(s, p) == KeepAbsent(s, q)
  {
    if s != [] {
      KeepAbsentSameMembers(s[1..], p, q);
    }
  }

  /** Filtering keeps the list in ascending order. */
  lemma {:induction false} KeepAbsentAscending(s: seq<int>, peers: seq<int>)
    requires StrictlyAscending(s)
    ensures StrictlyAscending(KeepAbsent(s, peers))
  {
    if s != [] {
      var tail := KeepAbsent(s[1..], peers);
      KeepAbsentAscending(s[1..], peers);
      forall u | u in tail ensures s[0] < u {
        var k :| 0 <= k < |s[1..]| && s[1..][k] == u;
        assert s[k + 1] == u;
      }
      var r := KeepAbsent(s, peers);
      if s[0] !in peers {
        assert r == [s[0]] + tail;
        forall i, j | 0 <= i < j < |r| ensures r[i] < r[j] {
          if i == 0 {
            assert r[j] == tail[j - 1];
            assert r[j] in tail;
          } else {
            assert r[i] == tail[i - 1] && r[j] == tail[j - 1];
          }
        }
      } else {
        assert r == tail;
      }
    }
  }

  /** Filtering by peers none of which is in the list returns the list itself. */
  lemma {:induction false} KeepAbsentNone(s: seq<int>, peers: seq<int>)
    requires forall i :: 0 <= i < |s| ==> s[i] !in peers
    ensures KeepAbsent(s, peers) == s
  {
    if s != [] {
      assert s[0] !in peers;
      KeepAbsentNone(s[1..], peers);
      calc {
        KeepAbsent(s, peers);
        [s[0]] + KeepAbsent(s[1..], peers);
        [s[0]] + s[1..];
        s;
      }
    }
  }

  // ---------------------------------------------------------------------
  // The removal loop shared by both revisions of getPossibilities

  /** One guarded removal: when the list contains v, every occurrence of v
      is removed; otherwise the list is kept. */
  method Drop(possibilities: seq<int>, v: int) returns (rest: seq<int>)
    ensures rest == Without(possibilities, v)
  {
    rest := possibilities;
    if v in possibilities {
      rest := Without(possibilities, v);
    } else {
      WithoutAbsent(possibilities, v);
    }
  }

  /** One pass of the removal loop filters by three more values. */
  lemma DropThree(start: seq<int>, seen: seq<int>, a: int, b: int, q: int)
    ensures Without(Without(Without(KeepAbsent(start, seen), a), b), q)
         == KeepAbsent(start, seen + [a] + [b] + [q])
  {
    WithoutKeepAbsent(start, seen, a);
    WithoutKeepAbsent(start, seen + [a], b);
    WithoutKeepAbsent(start, seen + [a] + [b], q);
  }

  /** The values seen after one more pass are those seen before plus the
      three values of that pass. */
  lemma SeenGrows(column: seq<int>, row: seq<int>, quadrant: seq<int>, i: int)
    requires |column| == |row| == |quadrant| == 9 && 0 <= i < 9
    ensures forall u :: u in column[..i + 1] + row[..i + 1] + quadrant[..i + 1] <==>
      u in column[..i] + row[..i] + quadrant[..i] + [column[i]] + [row[i]] + [quadrant[i]]
  {
    assert column[..i + 1] == column[..i] + [column[i]];
    assert row[..i + 1] == row[..i] + [row[i]];
    assert quadrant[..i + 1] == quadrant[..i] + [quadrant[i]];
  }

  /** The removal loop of getPossibilities: for i in 0..8 drop column[i],
      then row[i], then quadrant[i]. */
  method RemoveUnitValues(start: seq<int>, column: seq<int>, row: seq<int>, quadrant: seq<int>)
    returns (possibilities: seq<int>)
    requires |column| == |row| == |quadrant| == 9
    ensures possibilities == KeepAbsent(start, column + row + quadrant)
  {
    possibilities := start;
    assert column[..0] + row[..0] + quadrant[..0] == [];
    KeepAbsentNone(start, []);
    for i := 0 to 9
      invariant possibilities == KeepAbsent(start, column[..i] + row[..i] + quadrant[..i])
    {
      ghost var seen := column[..i] + row[..i] + quadrant[..i];
      DropThree(start, seen, column[i], row[i], quadrant[i]);
      possibilities := Drop(possibilities, column[i]);
      possibilities := Drop(possibilities, row[i]);
      possibilities := Drop(possibilities, quadrant[i]);
      SeenGrows(column, row, quadrant, i);
      KeepAbsentSameMembers(start, seen + [column[i]] + [row[i]] + [quadrant[i]],
                            column[..i + 1] + row[..i + 1] + quadrant[..i + 1]);
    }
    assert column[..9] == column && quadrant[..9] == quadrant && row[..9] == row;
  }
}
