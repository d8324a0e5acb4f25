/** Two facts about sequences that several modules need: where an element first is, and how pieces join. */
module Sequences {

  /** The first position of an element, or the length. */
  function FirstIndex<T(==)>(s: seq<T>, x: T): (r: nat)
    ensures r <= |s| && (r < |s| <==> x in s)
    ensures r < |s| ==> s[r] == x
    ensures forall i :: 0 <= i < r ==> s[i] != x
  {
    if s == [] || s[0] == x then 0 else 1 + FirstIndex(s[1..], x)
  }

  function Flatten<T>(pieces: seq<seq<T>>): seq<T> {
    if pieces == [] then [] else Flatten(pieces[..|pieces| - 1]) + pieces[|pieces| - 1]
  }

  lemma {:induction false} FlattenTwo<T>(a: seq<T>, b: seq<T>)
    ensures Flatten([a, b]) == a + b
  {
    assert [a][..0] == [];
    assert Flatten([a]) == a;
    assert [a, b][..1] == [a];
  }

  /** Joining from the front gives the same bytes as joining from the back. */
  lemma {:induction false} FlattenFront<T>(pieces: seq<seq<T>>)
    requires pieces != []
    ensures Flatten(pieces) == pieces[0] + Flatten(pieces[1..])
  {
    var n := |pieces| - 1;
    if n == 0 {
      assert pieces[..0] == [] && pieces[1..] == [];
    } else {
      var front, middle, last := pieces[0], pieces[1..n], pieces[n];
      FlattenFront(pieces[..n]);
      assert pieces[..n][1..] == middle && pieces[1..][..n - 1] == middle;
      assert Flatten(pieces[1..]) == Flatten(middle) + last;
      assert front + Flatten(middle) + last == front + (Flatten(middle) + last);
    }
  }

  lemma Reassociate<X>(a: seq<X>, b: seq<X>, c: seq<X>)
    ensures a + (b + c) == (a + b) + c
  {
  }
}
