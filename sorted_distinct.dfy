/**
 * `[...new Set(xs)].sort((a, b) => a - b)`: the distinct values of a list of
 * integers in ascending order.
 */
module SortedDistinct {

  ghost predicate StrictlyIncreasing(s: seq<int>) {
    forall i, j :: 0 <= i < j < |s| ==> s[i] < s[j]
  }

  function Elements(s: seq<int>): set<int> {
    set x | x in s
  }

  /** Insert `x` into a strictly increasing list unless it is already there. */
  function Insert(s: seq<int>, x: int): (r: seq<int>)
    requires StrictlyIncreasing(s)
    ensures StrictlyIncreasing(r)
    ensures Elements(r) == Elements(s) + {x}
  {
    if s == [] then [x]
    else
      HeadIsLeast(s);
      if x < s[0] then
        ConsIncreasing(x, s);
        [x] + s
      else if x == s[0] then s
      else
        var rest := Insert(s[1..], x);
        ConsIncreasing(s[0], rest);
        [s[0]] + rest
  }

  /** The head of an increasing list is below the rest; the list is head and tail. */
  lemma HeadIsLeast(s: seq<int>)
    requires StrictlyIncreasing(s) && s != []
    ensures forall y :: y in Elements(s[1..]) ==> s[0] < y
    ensures forall y :: y in Elements(s) ==> s[0] <= y
    ensures Elements(s) == {s[0]} + Elements(s[1..])
    ensures StrictlyIncreasing(s[1..])
  {
    assert s == [s[0]] + s[1..];
    forall y | y in Elements(s[1..]) ensures s[0] < y {
      var k :| 0 <= k < |s[1..]| && s[1..][k] == y;
      assert s[k + 1] == y;
    }
  }

  /** A head below every value of an increasing tail keeps the list increasing. */
  lemma ConsIncreasing(h: int, t: seq<int>)
    requires StrictlyIncreasing(t)
    requires forall y :: y in Elements(t) ==> h < y
    ensures StrictlyIncreasing([h] + t)
    ensures Elements([h] + t) == {h} + Elements(t)
  {
    var r := [h] + t;
    forall i, j | 0 <= i < j < |r| ensures r[i] < r[j] {
      assert r[j] == t[j - 1] && t[j - 1] in Elements(t);
      if i > 0 {
        assert r[i] == t[i - 1];
      }
    }
  }

  /** The distinct values of `xs`, each once, in ascending order. */
  function Sorted(xs: seq<int>): (r: seq<int>)
    ensures StrictlyIncreasing(r)
    ensures Elements(r) == Elements(xs)
  {
    if xs == [] then []
    else
      var init := xs[..|xs| - 1];
      assert Elements(xs) == Elements(init) + {xs[|xs| - 1]} by {
        assert xs == init + [xs[|xs| - 1]];
      }
      Insert(Sorted(init), xs[|xs| - 1])
  }

  /**
   * A strictly increasing list is determined by its values: any other
   * ascending listing of the same set (such as the one `Array.sort` gives)
   * is the same list.
   */
  lemma {:induction false} StrictlyIncreasingUnique(a: seq<int>, b: seq<int>)
    requires StrictlyIncreasing(a) && StrictlyIncreasing(b)
    requires Elements(a) == Elements(b)
    ensures a == b
    decreases |a|
  {
    if a != [] && b != [] {
      // Both heads are the least value of the common set.
      assert a[0] in Elements(b);
      assert b[0] in Elements(a);
      assert a[0] == b[0];
      assert Elements(a[1..]) == Elements(b[1..]) by {
        assert a == [a[0]] + a[1..];
        assert b == [b[0]] + b[1..];
        forall x | x in a[1..] ensures x in b[1..] {
          var k :| 0 <= k < |a[1..]| && a[1..][k] == x;
          assert a[k + 1] > a[0];
          assert x in Elements(b);
        }
        forall x | x in b[1..] ensures x in a[1..] {
          var k :| 0 <= k < |b[1..]| && b[1..][k] == x;
          assert b[k + 1] > b[0];
          assert x in Elements(a);
        }
      }
      StrictlyIncreasingUnique(a[1..], b[1..]);
    } else {
      NoElementsIffEmpty(a);
      NoElementsIffEmpty(b);
    }
  }

  lemma NoElementsIffEmpty(s: seq<int>)
    ensures s == [] <==> Elements(s) == {}
  {
    if s != [] {
      assert s[0] in Elements(s);
    }
  }
}
