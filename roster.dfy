/**
 * Participant rosters: the ordered list of e-mail addresses signed up for one
 * activity. Sign-up appends at the end; unregistering removes the first (and,
 * in a duplicate-free roster, only) occurrence of an address, keeping the
 * order of everybody else.
 */
module Roster {

  /** A participant is identified by an e-mail address; its format is never checked.
      The roster operations below are generic in the element type and used at `Email`. */
  type Email = string

  /** No address appears twice in the roster. */
  predicate Distinct<T(==)>(s: seq<T>)
  {
    forall i, j :: 0 <= i < j < |s| ==> s[i] != s[j]
  }

  /** Position of the first occurrence of `e` in `s`. */
  function IndexOf<T(==)>(s: seq<T>, e: T): (i: nat)
    requires e in s
    ensures i < |s| && s[i] == e
    ensures e !in s[..i]
  {
    if s[0] == e then 0
    else
      var k := IndexOf(s[1..], e);
      assert s[..k + 1] == [s[0]] + s[1..][..k];
      k + 1
  }

  /** The roster with the first occurrence of `e` taken out (a no-op when `e` is absent). */
  function RemoveFirst<T(==)>(s: seq<T>, e: T): (r: seq<T>)
    ensures |r| == if e in s then |s| - 1 else |s|
    ensures e !in s ==> r == s
  {
    if s == [] then []
    else if s[0] == e then s[1..]
    else
      assert e in s <==> e in s[1..] by { assert s == [s[0]] + s[1..]; }
      assert e !in s ==> [s[0]] + s[1..] == s;
      [s[0]] + RemoveFirst(s[1..], e)
  }

  /** Removal takes exactly one copy of `e` out of the roster, and nothing else. */
  lemma {:induction false} RemoveFirstMultiset<T>(s: seq<T>, e: T)
    ensures multiset(RemoveFirst(s, e)) == multiset(s) - multiset{e}
  {
    if s != [] {
      assert s == [s[0]] + s[1..];
      if s[0] != e {
        RemoveFirstMultiset(s[1..], e);
      }
    }
  }

  /**
   * Removal splices out exactly the first occurrence, at position `i`, and
   * keeps the order of the rest (`IndexOf` gives that position).
   */
  lemma {:induction false} RemoveFirstIsSplice<T>(s: seq<T>, e: T, i: nat)
    requires i < |s| && s[i] == e && e !in s[..i]
    ensures RemoveFirst(s, e) == s[..i] + s[i + 1..]
  {
    if i == 0 {
      assert s[..0] + s[1..] == s[1..];
    } else {
      var t := s[1..];
      assert s[..i] == [s[0]] + t[..i - 1];
      assert s[0] != e by { assert s[0] == s[..i][0]; }
      RemoveFirstIsSplice(t, e, i - 1);
      calc {
        RemoveFirst(s, e);
        [s[0]] + RemoveFirst(t, e);
        [s[0]] + (t[..i - 1] + t[i..]);
        { assert s[i + 1..] == t[i..]; }
        s[..i] + s[i + 1..];
      }
    }
  }

  /** The tail of a duplicate-free roster is duplicate-free and does not hold its head. */
  lemma DistinctTail<T>(s: seq<T>)
    requires s != [] && Distinct(s)
    ensures Distinct(s[1..]) && s[0] !in s[1..]
  {
  }

  /** Putting an address in front of a duplicate-free roster that lacks it keeps it duplicate-free. */
  lemma DistinctCons<T>(x: T, s: seq<T>)
    requires Distinct(s) && x !in s
    ensures Distinct([x] + s)
  {
  }

  /** In a duplicate-free roster, removal takes the address out entirely and keeps the roster duplicate-free. */
  lemma {:induction false} RemoveFirstDistinct<T>(s: seq<T>, e: T)
    requires Distinct(s)
    ensures Distinct(RemoveFirst(s, e))
    ensures e !in RemoveFirst(s, e)
  {
    if s != [] {
      DistinctTail(s);
      if s[0] != e {
        var r' := RemoveFirst(s[1..], e);
        RemoveFirstDistinct(s[1..], e);
        RemoveFirstMultiset(s[1..], e);
        assert s[0] !in r' by {
          assert multiset(r')[s[0]] <= multiset(s[1..])[s[0]] == 0;
        }
        DistinctCons(s[0], r');
      }
    }
  }

  /** Appending an address not yet present keeps the roster duplicate-free. */
  lemma AppendDistinct<T>(s: seq<T>, e: T)
    requires Distinct(s) && e !in s
    ensures Distinct(s + [e])
  {
  }

  /** Removing an address that was just appended gives back the roster it was appended to. */
  lemma {:induction false} RemoveAppended<T>(s: seq<T>, e: T)
    requires e !in s
    ensures RemoveFirst(s + [e], e) == s
  {
    if s != [] {
      assert (s + [e])[1..] == s[1..] + [e];
      RemoveAppended(s[1..], e);
      assert s == [s[0]] + s[1..];
    }
  }
}
