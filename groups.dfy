/** Sprite groups as sequences of distinct sprites in insertion order, and
    `kill`, which takes a set of sprites out of a group. */
module Groups {

  /** The sprites of a group, as a set. */
  function Elements<T>(s: seq<T>): set<T> {
    set x | x in s
  }

  /** A group holds each sprite at most once. */
  predicate Distinct<T(==)>(s: seq<T>) {
    forall i, j :: 0 <= i < j < |s| ==> s[i] != s[j]
  }

  /** The group after every sprite of `dead` was killed: the survivors, in their
      original order. */
  function Remove<T(==)>(s: seq<T>, dead: set<T>): (r: seq<T>)
    ensures Elements(r) == Elements(s) - dead
    ensures forall x <- r :: x in s
    ensures |r| <= |s|
    decreases |s|
  {
    if s == [] then []
    else
      var init, last := s[..|s| - 1], s[|s| - 1];
      var kept := if last in dead then [] else [last];
      assert s == init + [last];
      ElementsConcat(init, [last]);
      ElementsConcat(Remove(init, dead), kept);
      Remove(init, dead) + kept
  }

  /** Where the survivors of a kill were in the group: the positions of the
      sprites that are not dead, in increasing order, so that the survivors
      keep their relative order. */
  ghost function SurvivorPositions<T>(s: seq<T>, dead: set<T>): (idx: seq<nat>)
    ensures |idx| == |Remove(s, dead)|
    ensures forall i :: 0 <= i < |idx| ==> idx[i] < |s| && s[idx[i]] == Remove(s, dead)[i]
    ensures forall i, j :: 0 <= i < j < |idx| ==> idx[i] < idx[j]
    ensures forall k :: 0 <= k < |s| && s[k] !in dead ==> k in idx
    decreases |s|
  {
    if s == [] then []
    else
      var init, last := s[..|s| - 1], s[|s| - 1];
      var rest := SurvivorPositions(init, dead);
      assert s == init + [last];
      RemoveAppend(init, last, dead);
      if last in dead then rest else rest + [|s| - 1]
  }

  lemma ElementsConcat<T>(a: seq<T>, b: seq<T>)
    ensures Elements(a + b) == Elements(a) + Elements(b)
  {
  }

  lemma {:induction false} RemoveDistinct<T>(s: seq<T>, dead: set<T>)
    requires Distinct(s)
    ensures Distinct(Remove(s, dead))
    decreases |s|
  {
    if s != [] {
      var init, last := s[..|s| - 1], s[|s| - 1];
      assert Distinct(init);
      RemoveDistinct(init, dead);
      assert last !in Remove(init, dead) by {
        assert last !in Elements(init);
        assert last !in Elements(Remove(init, dead));
      }
    }
  }

  /** Killing sprites of the group leaves exactly |dead| fewer. */
  lemma {:induction false} RemoveCount<T>(s: seq<T>, dead: set<T>)
    requires Distinct(s)
    requires dead <= Elements(s)
    ensures |Remove(s, dead)| == |s| - |dead|
    decreases |s|
  {
    if s == [] {
      assert dead == {};
    } else {
      var init, last := s[..|s| - 1], s[|s| - 1];
      assert Distinct(init);
      assert last !in init;
      var rest := dead - {last};
      assert rest <= Elements(init) by {
        forall x | x in rest ensures x in Elements(init) {
          assert x in s;
          var k :| 0 <= k < |s| && s[k] == x;
          assert k != |s| - 1;
          assert init[k] == x;
        }
      }
      RemoveCount(init, rest);
      assert Remove(init, rest) == Remove(init, dead) by {
        RemoveSameOn(init, rest, dead);
      }
      if last in dead {
        assert |dead| == |rest| + 1;
      } else {
        assert rest == dead;
      }
    }
  }

  /** Removing does not depend on sprites that are not in the group. */
  lemma {:induction false} RemoveSameOn<T>(s: seq<T>, d1: set<T>, d2: set<T>)
    requires forall x :: x in s ==> (x in d1 <==> x in d2)
    ensures Remove(s, d1) == Remove(s, d2)
    decreases |s|
  {
    if s != [] {
      RemoveSameOn(s[..|s| - 1], d1, d2);
    }
  }

  /** Removing from a group that grew by one sprite. */
  lemma RemoveAppend<T>(s: seq<T>, x: T, dead: set<T>)
    ensures Remove(s + [x], dead) == Remove(s, dead) + (if x in dead then [] else [x])
  {
    assert (s + [x])[..|s|] == s;
  }

  /** A group of distinct sprites has as many sprites as elements. */
  lemma {:induction false} DistinctCard<T>(s: seq<T>)
    requires Distinct(s)
    ensures |Elements(s)| == |s|
    decreases |s|
  {
    if s != [] {
      var init, last := s[..|s| - 1], s[|s| - 1];
      assert Distinct(init);
      DistinctCard(init);
      assert last !in Elements(init) by {
        forall k | 0 <= k < |init|
          ensures init[k] != last
        {
          assert s[k] == init[k];
        }
      }
      assert Elements(s) == Elements(init) + {last} by {
        assert s == init + [last];
        ElementsConcat(init, [last]);
      }
    }
  }
}
