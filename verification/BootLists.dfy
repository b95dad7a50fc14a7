/** Lists of boot options and of their indices. */
module BootLists {
  import opened Words

  datatype Option<T> = None | Some(value: T)

  /** A boot option in memory: its index and the load option it was read from or written to. */
  datatype Entry = Entry(LoadOptionIndex: u16, LoadOption: seq<u8>)

  predicate NoDuplicates(s: seq<u16>) { forall i, j :: 0 <= i < j < |s| ==> s[i] != s[j] }

  function Indices(l: seq<Entry>): (s: seq<u16>)
    ensures |s| == |l| && forall i :: 0 <= i < |l| ==> s[i] == l[i].LoadOptionIndex
  {
    seq(|l|, i requires 0 <= i < |l| => l[i].LoadOptionIndex)
  }

  function Without<T>(s: seq<T>, i: nat): (t: seq<T>)
    requires i < |s|
    ensures |t| == |s| - 1 && forall k :: 0 <= k < |t| ==> t[k] == if k < i then s[k] else s[k + 1]
  {
    seq(|s| - 1, k requires 0 <= k < |s| - 1 => if k < i then s[k] else s[k + 1])
  }

  function With<T>(s: seq<T>, i: nat, x: T): (t: seq<T>)
    requires i <= |s|
    ensures |t| == |s| + 1 && forall k :: 0 <= k < |t| ==> t[k] == if k < i then s[k] else if k == i then x else s[k - 1]
  {
    seq(|s| + 1, k requires 0 <= k < |s| + 1 => if k < i then s[k] else if k == i then x else s[k - 1])
  }

  lemma WithWithout<T>(s: seq<T>, i: nat)
    requires i < |s|
    ensures With(Without(s, i), i, s[i]) == s
  {
  }

  lemma WithoutWith<T>(s: seq<T>, i: nat, x: T)
    requires i <= |s|
    ensures Without(With(s, i, x), i) == s
  {
  }

  // ---------------------------------------------------------------------
  // Exchanging two nodes of a doubly linked list, as a sequence
  // ---------------------------------------------------------------------

  /** SwapListEntries: the first node is removed and put next to the second, then the second takes the
      place before the first's old successor. Nodes next to each other need one step only. Place i of
      the list without its i-th node is the old successor, the list head when there is none. */
  function SwapListEntries<T>(l: seq<T>, i: nat, j: nat): (m: seq<T>)
    requires i < |l| && j < |l|
    ensures |m| == |l|
  {
    if i == j then l
    else
      var r := Without(l, i);
      var second := if j < i then j else j - 1;
      if second + 1 == i then With(r, second, l[i])
      else
        var s := With(r, second + 1, l[i]);
        if second == i then s
        else With(Without(s, second), i, l[j])
  }

  lemma SwapNeighbours<T>(l: seq<T>, i: nat, j: nat)
    requires i < |l| && j < |l| && (j + 1 == i || i + 1 == j)
    ensures SwapListEntries(l, i, j) == l[i := l[j]][j := l[i]]
  {
  }

  lemma SwapApart<T>(l: seq<T>, i: nat, j: nat)
    requires i < |l| && j < |l| && (j + 1 < i || i + 1 < j)
    ensures SwapListEntries(l, i, j) == l[i := l[j]][j := l[i]]
  {
    var r, second := Without(l, i), if j < i then j else j - 1;
    var t := Without(With(r, second + 1, l[i]), second);
    assert t == r[second := l[i]];
    assert With(t, i, l[j]) == l[i := l[j]][j := l[i]];
  }

  /** It exchanges the two and leaves every other node in its place. */
  lemma SwapExchanges<T>(l: seq<T>, i: nat, j: nat)
    requires i < |l| && j < |l|
    ensures SwapListEntries(l, i, j) == l[i := l[j]][j := l[i]]
  {
    if j + 1 < i || i + 1 < j {
      SwapApart(l, i, j);
    } else if i != j {
      SwapNeighbours(l, i, j);
    }
  }

  /** Moving the entry at `pos` past its neighbour keeps the list without it. */
  lemma MoveKeepsRest<T>(l: seq<T>, pos: nat, next: nat)
    requires pos < |l| && next < |l| && (next == pos + 1 || next + 1 == pos)
    ensures Without(SwapListEntries(l, pos, next), next) == Without(l, pos)
    ensures SwapListEntries(l, pos, next)[next] == l[pos]
  {
    SwapExchanges(l, pos, next);
  }

  // ---------------------------------------------------------------------
  // Putting an entry back after the node that preceded it
  // ---------------------------------------------------------------------

  /** InsertHeadList after a node, or after the list head. */
  function InsertAfter(l: seq<Entry>, prev: Option<u16>, e: Entry): (m: seq<Entry>)
    ensures |m| == |l| + 1
  {
    if prev.None? || l == [] then [e] + l
    else if l[0].LoadOptionIndex == prev.value then [l[0], e] + l[1..]
    else [l[0]] + InsertAfter(l[1..], prev, e)
  }

  lemma {:induction false} InsertAfterPrevious(l: seq<Entry>, pos: nat, e: Entry)
    requires 0 < pos <= |l| && NoDuplicates(Indices(l))
    ensures InsertAfter(l, Some(l[pos - 1].LoadOptionIndex), e) == With(l, pos, e)
  {
    if pos > 1 {
      assert Indices(l)[0] != Indices(l)[pos - 1];
      TailKeepsApart(l);
      InsertAfterPrevious(l[1..], pos - 1, e);
    }
  }

  lemma TailKeepsApart(l: seq<Entry>)
    requires l != [] && NoDuplicates(Indices(l))
    ensures NoDuplicates(Indices(l[1..]))
  {
    var s, t := Indices(l), Indices(l[1..]);
    forall i, j | 0 <= i < j < |t|
      ensures t[i] != t[j]
    {
      assert s[i + 1] != s[j + 1];
    }
  }

  // ---------------------------------------------------------------------
  // No duplicates
  // ---------------------------------------------------------------------

  lemma WithoutKeepsApart(s: seq<u16>, i: nat)
    requires i < |s| && NoDuplicates(s)
    ensures NoDuplicates(Without(s, i))
    ensures forall x :: x in Without(s, i) <==> x in s && x != s[i]
  {
    var t := Without(s, i);
    forall x: u16
      ensures x in t <==> x in s && x != s[i]
    {
      if x in t {
        var k :| 0 <= k < |t| && t[k] == x;
        assert s[if k < i then k else k + 1] == x;
      }
      if x in s && x != s[i] {
        var k :| 0 <= k < |s| && s[k] == x;
        assert t[if k < i then k else k - 1] == x;
      }
    }
  }

  /** The numbers below n. */
  function Below(n: nat): (b: set<u16>)
    requires n <= 0x1_0000
    ensures |b| == n && forall i: u16 :: i in b <==> i < n
  {
    if n == 0 then {} else Below(n - 1) + {n - 1}
  }

  lemma {:induction false} ElementCount(s: seq<u16>, e: set<u16>)
    requires e == set x: u16 | x in s
    ensures |e| <= |s|
  {
    if s == [] {
      assert e == {};
    } else {
      var t, x := s[..|s| - 1], s[|s| - 1];
      var f := set y: u16 | y in t;
      assert e == f + {x};
      ElementCount(t, f);
    }
  }

  lemma AllPresent(s: seq<u16>)
    requires forall i: u16 :: i in s
    ensures |s| >= 0x1_0000
  {
    var e := set x: u16 | x in s;
    assert e == Below(0x1_0000);
    ElementCount(s, e);
  }

  /** A list of fewer than 65536 indices leaves one free. */
  lemma SomeFree(s: seq<u16>)
    requires |s| < 0x1_0000
    ensures exists i: u16 :: i !in s
  {
    if forall i: u16 :: i in s {
      AllPresent(s);
    }
  }

  lemma {:induction false} DistinctCount(s: seq<u16>, e: set<u16>)
    requires NoDuplicates(s) && e == set x: u16 | x in s
    ensures |e| == |s|
  {
    if s == [] {
      assert e == {};
    } else {
      var t, x := s[..|s| - 1], s[|s| - 1];
      var f := set y: u16 | y in t;
      assert e == f + {x} && x !in f;
      DistinctCount(t, f);
    }
  }

  /** A list of 65536 different indices has them all. */
  lemma FullHasAll(s: seq<u16>)
    requires NoDuplicates(s) && |s| >= 0x1_0000
    ensures forall i: u16 :: i in s
  {
    var e := set x: u16 | x in s;
    DistinctCount(s, e);
    if i: u16 :| i !in s {
      assert e <= Below(0x1_0000) - {i};
      SubsetCount(e, Below(0x1_0000) - {i});
    }
  }

  lemma {:induction false} SubsetCount(a: set<u16>, b: set<u16>)
    requires a <= b
    ensures |a| <= |b|
    decreases |a|
  {
    if a != {} {
      var x :| x in a;
      SubsetCount(a - {x}, b - {x});
    }
  }

  // ---------------------------------------------------------------------
  // Moving one entry
  // ---------------------------------------------------------------------

  /** The list with the entry at `from` moved to `to`. */
  function Moved<T>(l: seq<T>, from: nat, to: nat): (m: seq<T>)
    requires from < |l| && to < |l|
    ensures |m| == |l|
  {
    With(Without(l, from), to, l[from])
  }

  /** The entries between the two places move up or down by one to close the gap. */
  lemma MovedPlaces<T>(l: seq<T>, from: nat, to: nat, k: nat)
    requires from < |l| && to < |l| && k < |l|
    ensures Moved(l, from, to)[k] == if k == to then l[from]
                                     else if from <= k < to then l[k + 1]
                                     else if to < k <= from then l[k - 1]
                                     else l[k]
  {
  }

  /** One step further. */
  lemma MovedFurther<T>(l: seq<T>, from: nat, pos: nat, next: nat)
    requires from < |l| && pos < |l| && next < |l| && (next == pos + 1 || next + 1 == pos)
    ensures SwapListEntries(Moved(l, from, pos), pos, next) == Moved(l, from, next)
  {
    var m := Moved(l, from, pos);
    WithoutWith(Without(l, from), pos, l[from]);
    MoveKeepsRest(m, pos, next);
    WithWithout(SwapListEntries(m, pos, next), next);
  }

  /** Where an entry of the moved list comes from. */
  lemma MovedFrom<T>(l: seq<T>, from: nat, to: nat, k: nat) returns (j: nat)
    requires from < |l| && to < |l| && k < |l|
    ensures j < |l| && Moved(l, from, to)[k] == l[j]
  {
    var i := if k < to then k else k - 1;
    j := if k == to then from else if i < from then i else i + 1;
  }

  lemma MovedIndices(l: seq<Entry>, from: nat, to: nat)
    requires from < |l| && to < |l|
    ensures Indices(Moved(l, from, to)) == Moved(Indices(l), from, to)
  {
    var m, s := Moved(l, from, to), Moved(Indices(l), from, to);
    assert Without(Indices(l), from) == Indices(Without(l, from));
  }

  lemma WithContents<T>(s: seq<T>, i: nat, x: T)
    requires i <= |s|
    ensures multiset(With(s, i, x)) == multiset(s) + multiset{x}
  {
    assert With(s, i, x) == s[..i] + [x] + s[i..];
    assert s[..i] + s[i..] == s;
  }

  /** Moving an entry is a permutation. */
  lemma MovedPermutes<T>(l: seq<T>, from: nat, to: nat)
    requires from < |l| && to < |l|
    ensures multiset(Moved(l, from, to)) == multiset(l)
  {
    var r := Without(l, from);
    WithContents(r, to, l[from]);
    WithContents(r, from, l[from]);
    WithWithout(l, from);
  }

  lemma MovedKeepsApart(s: seq<u16>, from: nat, to: nat)
    requires from < |s| && to < |s| && NoDuplicates(s)
    ensures NoDuplicates(Moved(s, from, to))
    ensures forall x :: x in Moved(s, from, to) <==> x in s
  {
    MovedPermutes(s, from, to);
    forall x: u16
      ensures x in Moved(s, from, to) <==> x in s
    {
      assert x in multiset(Moved(s, from, to)) <==> x in multiset(s);
    }
    WithoutKeepsApart(s, from);
    var r, m := Without(s, from), Moved(s, from, to);
    forall i, j | 0 <= i < j < |m|
      ensures m[i] != m[j]
    {
      assert forall k :: 0 <= k < |r| ==> r[k] in r;
    }
  }

  /** Taking the entry out and putting it back after the node that preceded it undoes every move. */
  lemma PutBack(l: seq<Entry>, from: nat, pos: nat)
    requires from < |l| && pos < |l| && NoDuplicates(Indices(l))
    ensures var previous := if from == 0 then None else Some(l[from - 1].LoadOptionIndex);
            InsertAfter(Without(Moved(l, from, pos), pos), previous, l[from]) == l
  {
    var r := Without(l, from);
    WithoutWith(r, pos, l[from]);
    if from > 0 {
      WithoutKeepsApart(Indices(l), from);
      assert Indices(r) == Without(Indices(l), from);
      InsertAfterPrevious(r, from, l[from]);
    }
    WithWithout(l, from);
  }

  /** Moving an entry to another place changes the order. */
  lemma MovedDiffers(s: seq<u16>, from: nat, to: nat)
    requires from < |s| && to < |s| && NoDuplicates(s)
    ensures Moved(s, from, to) == s <==> from == to
  {
    WithWithout(s, from);
    assert Moved(s, from, to)[to] == s[from];
  }
}
