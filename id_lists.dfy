/** Operations on ordered lists of identifiers, as the tree's root list uses them. */
module IdLists {
  import opened TreeNodes

  /** The position of the first occurrence of x in s. */
  function FirstIndex(s: seq<Id>, x: Id): (i: nat)
    requires x in s
    ensures i < |s| && s[i] == x && x !in s[..i]
  {
    if s[0] == x then 0
    else
      var j := FirstIndex(s[1..], x);
      assert s[..j + 1] == [s[0]] + s[1..][..j];
      j + 1
  }

  /** List<T>.Remove: drops the first occurrence of x, if there is one. */
  function RemoveFirst(s: seq<Id>, x: Id): (r: seq<Id>)
    ensures x !in s ==> r == s
    ensures x in s ==> r == s[..FirstIndex(s, x)] + s[FirstIndex(s, x) + 1..]
    ensures x in s ==> |r| == |s| - 1
    ensures forall y :: y in r ==> y in s
  {
    if s == [] then []
    else if s[0] == x then s[1..]
    else
      var t := RemoveFirst(s[1..], x);
      assert x in s[1..] ==> [s[0]] + t == s[..FirstIndex(s, x)] + s[FirstIndex(s, x) + 1..] by {
        if x in s[1..] {
          ConsSlices(s, FirstIndex(s[1..], x));
        }
      }
      [s[0]] + t
  }

  /** Cutting one element out of the tail cuts it out of the whole sequence, one place on. */
  lemma ConsSlices(s: seq<Id>, j: nat)
    requires j + 1 < |s|
    ensures [s[0]] + (s[1..][..j] + s[1..][j + 1..]) == s[..j + 1] + s[j + 2..]
  {
    assert s[..j + 1] == [s[0]] + s[1..][..j];
    assert s[j + 2..] == s[1..][j + 1..];
  }

  /** The elements of s that do not occur in ex, in their order in s. */
  function FilterOut(s: seq<Id>, ex: seq<Id>): (r: seq<Id>)
    ensures forall y :: y in r <==> y in s && y !in ex
    ensures |r| <= |s|
  {
    if s == [] then [] else (if s[0] in ex then [] else [s[0]]) + FilterOut(s[1..], ex)
  }

  lemma {:induction false} FilterOutDistinct(s: seq<Id>, ex: seq<Id>)
    requires Distinct(s)
    ensures Distinct(FilterOut(s, ex))
  {
    if s != [] {
      FilterOutDistinct(s[1..], ex);
      assert s[0] !in s[1..] by {
        forall j | 0 <= j < |s[1..]| ensures s[1..][j] != s[0] {
          assert s[1..][j] == s[j + 1];
        }
      }
    }
  }

  lemma {:induction false} FilterOutNothing(s: seq<Id>, ex: seq<Id>)
    requires forall y :: y in s ==> y !in ex
    ensures FilterOut(s, ex) == s
  {
    if s != [] {
      FilterOutNothing(s[1..], ex);
    }
  }

  lemma {:induction false} FilterOutTwice(s: seq<Id>, a: seq<Id>, b: seq<Id>)
    ensures FilterOut(FilterOut(s, a), b) == FilterOut(s, a + b)
  {
    if s != [] {
      FilterOutTwice(s[1..], a, b);
      var f := FilterOut(s, a);
      if s[0] !in a {
        assert f == [s[0]] + FilterOut(s[1..], a);
        assert f != [] && f[0] == s[0] && f[1..] == FilterOut(s[1..], a);
        assert FilterOut(f, b) == (if s[0] in b then [] else [s[0]]) + FilterOut(f[1..], b);
      } else {
        assert f == FilterOut(s[1..], a);
      }
    }
  }

  lemma {:induction false} FilterOutAppend(s: seq<Id>, t: seq<Id>, ex: seq<Id>)
    ensures FilterOut(s + t, ex) == FilterOut(s, ex) + FilterOut(t, ex)
  {
    if s == [] {
      assert s + t == t;
    } else {
      assert (s + t)[1..] == s[1..] + t;
      FilterOutAppend(s[1..], t, ex);
    }
  }

  /** Appending an identifier not yet listed keeps a list free of repetitions. */
  lemma AppendFreshDistinct(s: seq<Id>, x: Id)
    requires Distinct(s) && x !in s
    ensures Distinct(s + [x])
  {
    forall i, j | 0 <= i < j < |s + [x]| ensures (s + [x])[i] != (s + [x])[j] {
      assert (s + [x])[i] == s[i];
    }
  }

  /** On a list without repetitions, List<T>.Remove drops every occurrence. */
  lemma {:induction false} RemoveFirstDistinct(s: seq<Id>, x: Id)
    requires Distinct(s)
    ensures RemoveFirst(s, x) == FilterOut(s, [x])
  {
    if s != [] {
      if s[0] == x {
        assert x !in s[1..] by {
          forall j | 0 <= j < |s[1..]| ensures s[1..][j] != x {
            assert s[1..][j] == s[j + 1];
          }
        }
        FilterOutNothing(s[1..], [x]);
      } else {
        assert Distinct(s[1..]) by {
          forall i, j | 0 <= i < j < |s[1..]| ensures s[1..][i] != s[1..][j] {
            assert s[1..][i] == s[i + 1] && s[1..][j] == s[j + 1];
          }
        }
        RemoveFirstDistinct(s[1..], x);
      }
    }
  }
}
