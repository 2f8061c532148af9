/**
 * The ancestor list `getTestableStack` builds: the class's method resolution
 * order without the class itself, with the `TestStack` marker placed
 * immediately before every occurrence of the base stack class. Classes are an
 * abstract element type `C`; `base` stands for `BaseStackClass` and `marker`
 * for `TestStack`.
 */
module Composition {

  /** `mro[1:]`: everything after the class itself (empty when there is nothing, as slicing gives). */
  function Ancestors<C>(mro: seq<C>): seq<C>
  {
    if |mro| == 0 then [] else mro[1..]
  }

  /** What one ancestor contributes: the marker and the base, or the ancestor alone. */
  function Placed<C(==)>(c: C, base: C, marker: C): seq<C>
  {
    if c == base then [marker, c] else [c]
  }

  /** `s` with `marker` placed immediately before every element equal to `base`. */
  function WithMarkers<C(==)>(s: seq<C>, base: C, marker: C): seq<C>
  {
    if s == [] then []
    else WithMarkers(s[..|s| - 1], base, marker) + Placed(s[|s| - 1], base, marker)
  }

  /** `s` with every element equal to `x` deleted, the others kept in order. */
  function Without<C(==)>(s: seq<C>, x: C): seq<C>
  {
    if s == [] then []
    else Without(s[..|s| - 1], x) + (if s[|s| - 1] == x then [] else [s[|s| - 1]])
  }

  /** Every element equal to `base` has `marker` immediately before it. */
  predicate BasesMarked<C(==)>(r: seq<C>, base: C, marker: C)
  {
    forall j :: 0 <= j < |r| && r[j] == base ==> 0 < j && r[j - 1] == marker
  }

  /** Every element equal to `marker` has `base` immediately after it. */
  predicate MarkersFollowed<C(==)>(r: seq<C>, base: C, marker: C)
  {
    forall j :: 0 <= j < |r| && r[j] == marker ==> j + 1 < |r| && r[j + 1] == base
  }

  /** The list `getTestableStack` passes as the bases of the new class. */
  method TestableBases<C(==)>(mro: seq<C>, base: C, marker: C) returns (newMro: seq<C>)
    ensures newMro == WithMarkers(Ancestors(mro), base, marker)
  {
    var ancestors := Ancestors(mro);
    newMro := [];
    for i := 0 to |ancestors|
      invariant newMro == WithMarkers(ancestors[..i], base, marker)
    {
      var c := ancestors[i];
      assert ancestors[..i + 1][..i] == ancestors[..i];
      if c == base {
        newMro := newMro + [marker];
      }
      newMro := newMro + [c];
    }
    assert ancestors[..|ancestors|] == ancestors;
  }

  /** What a sequence lacks, its prefix without the last element lacks too. */
  lemma AbsentFromPrefix<C>(s: seq<C>, x: C)
    requires s != [] && x !in s
    ensures x !in s[..|s| - 1]
  {
    var front := s[..|s| - 1];
    forall i | 0 <= i < |front| ensures front[i] != x {
      assert front[i] == s[i];
    }
  }

  /** One marker is added per occurrence of the base: the length grows by exactly that many. */
  lemma {:induction false} WithMarkersLength<C>(s: seq<C>, base: C, marker: C)
    ensures |WithMarkers(s, base, marker)| == |s| + multiset(s)[base]
  {
    if s != [] {
      var front := s[..|s| - 1];
      WithMarkersLength(front, base, marker);
      assert s == front + [s[|s| - 1]];
      assert multiset(s) == multiset(front) + multiset{s[|s| - 1]};
    }
  }

  /** Without the base class among the ancestors, the list is left as it is. */
  lemma {:induction false} WithMarkersAbsent<C>(s: seq<C>, base: C, marker: C)
    requires base !in s
    ensures WithMarkers(s, base, marker) == s
  {
    if s != [] {
      var front := s[..|s| - 1];
      AbsentFromPrefix(s, base);
      WithMarkersAbsent(front, base, marker);
      assert s == front + [s[|s| - 1]];
    }
  }

  /** Every occurrence of the base in the result has the marker immediately before it. */
  lemma {:induction false} MarkerBeforeEveryBase<C>(s: seq<C>, base: C, marker: C)
    requires marker != base
    ensures BasesMarked(WithMarkers(s, base, marker), base, marker)
  {
    if s != [] {
      var front, last := s[..|s| - 1], s[|s| - 1];
      MarkerBeforeEveryBase(front, base, marker);
      var r, r', p := WithMarkers(s, base, marker), WithMarkers(front, base, marker), Placed(last, base, marker);
      assert r == r' + p;
      forall j | 0 <= j < |r| && r[j] == base ensures 0 < j && r[j - 1] == marker {
        if j < |r'| {
          assert r'[j] == base;
          assert r[j - 1] == r'[j - 1];
        } else {
          assert p[j - |r'|] == base;
          assert last == base && j == |r'| + 1;
          assert r[j - 1] == p[0];
        }
      }
    }
  }

  /** When the marker is not already an ancestor, every marker in the result is followed by the base. */
  lemma {:induction false} EveryMarkerBeforeBase<C>(s: seq<C>, base: C, marker: C)
    requires marker !in s
    ensures MarkersFollowed(WithMarkers(s, base, marker), base, marker)
  {
    if s != [] {
      var front, last := s[..|s| - 1], s[|s| - 1];
      AbsentFromPrefix(s, marker);
      EveryMarkerBeforeBase(front, base, marker);
      var r, r', p := WithMarkers(s, base, marker), WithMarkers(front, base, marker), Placed(last, base, marker);
      assert r == r' + p;
      forall j | 0 <= j < |r| && r[j] == marker ensures j + 1 < |r| && r[j + 1] == base {
        if j < |r'| {
          assert r'[j] == marker;
          assert r[j + 1] == r'[j + 1];
        } else {
          assert p[j - |r'|] == marker;
          assert last == base && j == |r'|;
          assert r[j + 1] == p[1];
        }
      }
    }
  }

  /** Deleting distributes over concatenation. */
  lemma {:induction false} WithoutAppend<C>(a: seq<C>, b: seq<C>, x: C)
    ensures Without(a + b, x) == Without(a, x) + Without(b, x)
  {
    if b != [] {
      var b' := b[..|b| - 1];
      WithoutAppend(a, b', x);
      assert (a + b)[..|a + b| - 1] == a + b';
    } else {
      assert a + b == a;
    }
  }

  /** Deleting the marker from what one ancestor contributes leaves that ancestor. */
  lemma WithoutPlaced<C>(c: C, base: C, marker: C)
    requires c != marker
    ensures Without(Placed(c, base, marker), marker) == [c]
  {
    assert Without([c], marker) == [c] by { assert [c][..0] == []; }
    if c == base {
      assert Without([marker], marker) == [] by { assert [marker][..0] == []; }
      assert [marker, c][..1] == [marker];
    }
  }

  /**
   * Deleting the inserted markers gives back the ancestors exactly, in their
   * order, provided the marker was not already among them.
   */
  lemma {:induction false} WithoutMarkersRestores<C>(s: seq<C>, base: C, marker: C)
    requires marker !in s
    ensures Without(WithMarkers(s, base, marker), marker) == s
  {
    if s != [] {
      var front := s[..|s| - 1];
      var last := s[|s| - 1];
      AbsentFromPrefix(s, marker);
      WithoutMarkersRestores(front, base, marker);
      var r', p := WithMarkers(front, base, marker), Placed(last, base, marker);
      calc {
        Without(WithMarkers(s, base, marker), marker);
        Without(r' + p, marker);
        { WithoutAppend(r', p, marker); }
        Without(r', marker) + Without(p, marker);
        { WithoutPlaced(last, base, marker); }
        front + [last];
        s;
      }
    }
  }
}
