/** Order-preserving selection from a sequence: what remains when some elements are dropped.
    Both the per-plate loop (dropping plates that fault) and the participant search (dropping
    non-matching names) are selections. */
module Selection {

  /** The elements of `xs` that `dropped` does not reject, in their original order. */
  function Kept<T(==)>(xs: seq<T>, dropped: T -> bool): (ys: seq<T>)
    ensures |ys| <= |xs|
    ensures forall y :: y in ys ==> y in xs && !dropped(y)
  {
    if |xs| == 0 then []
    else
      var rest := Kept(xs[1..], dropped);
      assert forall y :: y in xs[1..] ==> y in xs;
      if dropped(xs[0]) then rest else [xs[0]] + rest
  }

  /** The positions of the kept elements, ascending. */
  function Positions<T>(xs: seq<T>, dropped: T -> bool): seq<nat> {
    if |xs| == 0 then []
    else
      var rest := Shift(Positions(xs[1..], dropped));
      if dropped(xs[0]) then rest else [0] + rest
  }

  /** Every position moved one place on. */
  function Shift(pos: seq<nat>): (r: seq<nat>)
    ensures |r| == |pos|
    ensures forall k :: 0 <= k < |pos| ==> r[k] == pos[k] + 1
  {
    if |pos| == 0 then [] else [pos[0] + 1] + Shift(pos[1..])
  }

  /** `kept[j]` is the element at position `pos[j]` of `xs`, and it is not dropped. */
  predicate Picks<T(==)>(xs: seq<T>, dropped: T -> bool, kept: seq<T>, pos: seq<nat>) {
    && |pos| == |kept|
    && forall j :: 0 <= j < |pos| ==> pos[j] < |xs| && kept[j] == xs[pos[j]] && !dropped(kept[j])
  }

  /** The positions ascend strictly. */
  predicate Ascending(pos: seq<nat>) {
    forall j, k :: 0 <= j < k < |pos| ==> pos[j] < pos[k]
  }

  /** Every position of an element that is not dropped is listed. */
  predicate Covers<T>(xs: seq<T>, dropped: T -> bool, pos: seq<nat>) {
    forall i :: 0 <= i < |xs| && !dropped(xs[i]) ==> i in pos
  }

  /** `pos` lists, strictly ascending, the positions of exactly the elements of `xs` that are
      not dropped, and `kept[j]` is the element at `pos[j]`. */
  predicate TracesBack<T(==)>(xs: seq<T>, dropped: T -> bool, kept: seq<T>, pos: seq<nat>) {
    Picks(xs, dropped, kept, pos) && Ascending(pos) && Covers(xs, dropped, pos)
  }

  /** The filter's output traces back to its input through the kept positions. */
  predicate KeptInOrder<T(==)>(xs: seq<T>, dropped: T -> bool) {
    TracesBack(xs, dropped, Kept(xs, dropped), Positions(xs, dropped))
  }

  lemma {:induction false} PicksShift<T>(xs: seq<T>, dropped: T -> bool, kept: seq<T>, pos: seq<nat>)
    requires |xs| > 0
    requires Picks(xs[1..], dropped, kept, pos)
    ensures Picks(xs, dropped, kept, Shift(pos))
  {
    var shifted := Shift(pos);
    forall j | 0 <= j < |shifted|
      ensures shifted[j] < |xs| && kept[j] == xs[shifted[j]]
    {
      assert xs[shifted[j]] == xs[1..][pos[j]];
    }
  }

  lemma {:induction false} PicksKeep<T>(xs: seq<T>, dropped: T -> bool, kept: seq<T>, pos: seq<nat>)
    requires |xs| > 0 && !dropped(xs[0])
    requires Picks(xs[1..], dropped, kept, pos)
    ensures Picks(xs, dropped, [xs[0]] + kept, [0] + Shift(pos))
  {
    PicksShift(xs, dropped, kept, pos);
    var shifted := Shift(pos);
    var kept' := [xs[0]] + kept;
    var pos' := [0] + shifted;
    forall j | 1 <= j < |pos'|
      ensures pos'[j] == shifted[j - 1] && kept'[j] == kept[j - 1]
    {
    }
  }

  lemma {:induction false} AscendingShift(pos: seq<nat>)
    requires Ascending(pos)
    ensures Ascending(Shift(pos)) && Ascending([0] + Shift(pos))
  {
    var shifted := Shift(pos);
    var pos' := [0] + shifted;
    forall j, k | 0 <= j < k < |pos'|
      ensures pos'[j] < pos'[k]
    {
      assert pos'[k] == shifted[k - 1];
      if j > 0 {
        assert pos'[j] == shifted[j - 1];
      }
    }
  }

  lemma {:induction false} CoversShift<T>(xs: seq<T>, dropped: T -> bool, pos: seq<nat>)
    requires |xs| > 0
    requires Covers(xs[1..], dropped, pos)
    ensures forall i :: 1 <= i < |xs| && !dropped(xs[i]) ==> i in Shift(pos)
  {
    var shifted := Shift(pos);
    forall i | 1 <= i < |xs| && !dropped(xs[i])
      ensures i in shifted
    {
      assert xs[1..][i - 1] == xs[i];
      var j :| 0 <= j < |pos| && pos[j] == i - 1;
      assert shifted[j] == i;
    }
  }

  lemma {:induction false} CoversKeep<T>(xs: seq<T>, dropped: T -> bool, pos: seq<nat>)
    requires |xs| > 0
    requires Covers(xs[1..], dropped, pos)
    ensures Covers(xs, dropped, [0] + Shift(pos))
    ensures dropped(xs[0]) ==> Covers(xs, dropped, Shift(pos))
  {
    CoversShift(xs, dropped, pos);
    var shifted := Shift(pos);
    var pos' := [0] + shifted;
    forall i | 1 <= i < |xs| && !dropped(xs[i])
      ensures i in pos'
    {
      assert i in shifted;
      var j :| 0 <= j < |shifted| && shifted[j] == i;
      assert pos'[j + 1] == i;
    }
    assert pos'[0] == 0;
  }

  /** The kept elements are exactly the elements that are not dropped, in their original
      order: each comes from a strictly later position than the one before, and every
      element that is not dropped is among them. */
  lemma {:induction false} KeptTracesBack<T>(xs: seq<T>, dropped: T -> bool)
    ensures KeptInOrder(xs, dropped)
  {
    if |xs| > 0 {
      var kept := Kept(xs[1..], dropped);
      var pos := Positions(xs[1..], dropped);
      KeptTracesBack(xs[1..], dropped);
      AscendingShift(pos);
      CoversKeep(xs, dropped, pos);
      if dropped(xs[0]) {
        assert Kept(xs, dropped) == kept;
        assert Positions(xs, dropped) == Shift(pos);
        PicksShift(xs, dropped, kept, pos);
      } else {
        assert Kept(xs, dropped) == [xs[0]] + kept;
        assert Positions(xs, dropped) == [0] + Shift(pos);
        PicksKeep(xs, dropped, kept, pos);
      }
    }
  }

  /** Selection distributes over concatenation. */
  lemma {:induction false} KeptConcat<T>(a: seq<T>, b: seq<T>, dropped: T -> bool)
    ensures Kept(a + b, dropped) == Kept(a, dropped) + Kept(b, dropped)
  {
    if |a| > 0 {
      assert (a + b)[1..] == a[1..] + b;
      KeptConcat(a[1..], b, dropped);
    } else {
      assert a + b == b;
    }
  }

  /** When nothing is dropped, everything is kept. */
  lemma {:induction false} KeptAll<T>(xs: seq<T>, dropped: T -> bool)
    requires forall i :: 0 <= i < |xs| ==> !dropped(xs[i])
    ensures Kept(xs, dropped) == xs
  {
    if |xs| > 0 {
      KeptAll(xs[1..], dropped);
      assert [xs[0]] + xs[1..] == xs;
    }
  }
}
