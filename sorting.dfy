/**
 * The host's `Array.prototype.sort` with a comparator `(a, b) => a.k - b.k`
 * over one coordinate of the nodes. The sort is stable, so its result is
 * fixed by the keys: it is modelled here as an insertion sort that places
 * each element after the earlier elements whose key is not larger.
 */
module Sorting {
  import opened Model

  /** The coordinate a sort compares. */
  datatype Coord = X | Y

  function Key(n: Node, c: Coord): real {
    match c
    case X => n.x
    case Y => n.y
  }

  predicate SortedBy(s: seq<Node>, c: Coord) {
    forall i, j :: 0 <= i < j < |s| ==> Key(s[i], c) <= Key(s[j], c)
  }

  /** Puts `n` after every leading element whose key is not larger than its own. */
  function Insert(n: Node, s: seq<Node>, c: Coord): (r: seq<Node>)
    ensures |r| == |s| + 1 && multiset(r) == multiset(s) + multiset{n}
    ensures r[0] == if |s| == 0 || Key(n, c) < Key(s[0], c) then n else s[0]
  {
    if |s| == 0 then [n]
    else if Key(n, c) < Key(s[0], c) then [n] + s
    else
      assert s == [s[0]] + s[1..];
      [s[0]] + Insert(n, s[1..], c)
  }

  predicate AtLeast(s: seq<Node>, c: Coord, b: real) {
    forall i :: 0 <= i < |s| ==> b <= Key(s[i], c)
  }

  lemma {:induction false} InsertAtLeast(n: Node, s: seq<Node>, c: Coord, b: real)
    requires AtLeast(s, c, b) && b <= Key(n, c)
    ensures AtLeast(Insert(n, s, c), c, b)
  {
    if |s| > 0 && Key(s[0], c) <= Key(n, c) {
      InsertAtLeast(n, s[1..], c, b);
      var r := Insert(n, s, c);
      assert r == [s[0]] + Insert(n, s[1..], c);
      forall i | 0 <= i < |r| ensures b <= Key(r[i], c) {
        if i > 0 { assert r[i] == Insert(n, s[1..], c)[i - 1]; }
      }
    }
  }

  lemma {:induction false} InsertSorted(n: Node, s: seq<Node>, c: Coord)
    requires SortedBy(s, c)
    ensures SortedBy(Insert(n, s, c), c)
  {
    if |s| > 0 && Key(s[0], c) <= Key(n, c) {
      var t := Insert(n, s[1..], c);
      assert SortedBy(s[1..], c) by {
        forall i, j | 0 <= i < j < |s[1..]| ensures Key(s[1..][i], c) <= Key(s[1..][j], c) {
          assert s[1..][i] == s[i + 1] && s[1..][j] == s[j + 1];
        }
      }
      assert AtLeast(s[1..], c, Key(s[0], c)) by {
        forall i | 0 <= i < |s[1..]| ensures Key(s[0], c) <= Key(s[1..][i], c) {
          assert s[1..][i] == s[i + 1];
        }
      }
      InsertSorted(n, s[1..], c);
      InsertAtLeast(n, s[1..], c, Key(s[0], c));
      var r := [s[0]] + t;
      assert Insert(n, s, c) == r;
      forall i, j | 0 <= i < j < |r| ensures Key(r[i], c) <= Key(r[j], c) {
        assert r[j] == t[j - 1];
        if i > 0 {
          assert r[i] == t[i - 1];
        }
      }
    }
  }

  /** The stable sort of `s` by coordinate `c`. */
  function SortBy(s: seq<Node>, c: Coord): (r: seq<Node>)
    ensures |r| == |s| && multiset(r) == multiset(s) && SortedBy(r, c)
  {
    if |s| == 0 then []
    else
      assert s == s[..|s| - 1] + [s[|s| - 1]];
      InsertSorted(s[|s| - 1], SortBy(s[..|s| - 1], c), c);
      Insert(s[|s| - 1], SortBy(s[..|s| - 1], c), c)
  }

  /** After sorting, the last element is one of the input's and carries the largest key. */
  lemma SortByLastIsMax(s: seq<Node>, c: Coord)
    requires |s| > 0
    ensures SortBy(s, c)[|s| - 1] in s
    ensures forall j :: 0 <= j < |s| ==> Key(s[j], c) <= Key(SortBy(s, c)[|s| - 1], c)
  {
    var r := SortBy(s, c);
    assert r[|s| - 1] in multiset(s);
    forall j | 0 <= j < |s| ensures Key(s[j], c) <= Key(r[|s| - 1], c) {
      assert s[j] in multiset(r);
      var i :| 0 <= i < |r| && r[i] == s[j];
      assert i <= |s| - 1;
    }
  }
}
