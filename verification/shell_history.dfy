/** The shell's command history, without the mutex that guards it. */
module ShellHistory {

  /** No two neighbouring entries are equal. */
  predicate NoAdjacentDup(h: seq<string>) {
    forall i :: 0 < i < |h| ==> h[i - 1] != h[i]
  }

  /** `add_to_history`: appends the input unless it repeats the last entry. */
  function AddToHistory(h: seq<string>, input: string): (r: seq<string>)
    ensures |h| > 0 && h[|h| - 1] == input ==> r == h
    ensures !(|h| > 0 && h[|h| - 1] == input) ==> r == h + [input]
    ensures r[..|h|] == h && |r| <= |h| + 1
    ensures |r| > 0 && r[|r| - 1] == input
    ensures NoAdjacentDup(h) ==> NoAdjacentDup(r)
  {
    if |h| > 0 && h[|h| - 1] == input then h else h + [input]
  }

  /**
   * `get_history`: the recorded entries. A history built by `add_to_history` has no equal
   * neighbours, so what is read is already its own collapse.
   */
  function GetHistory(h: seq<string>): (r: seq<string>)
    ensures NoAdjacentDup(h) ==> r == Collapse(h)
  {
    CollapseIfNoDup(h); h
  }

  /** The history after a series of inputs. */
  function AddAll(h: seq<string>, inputs: seq<string>): seq<string>
    decreases |inputs|
  {
    if inputs == [] then h
    else AddAll(AddToHistory(h, inputs[0]), inputs[1..])
  }

  /** A reference definition: a sequence with each run of equal neighbours collapsed to one. */
  function Collapse(xs: seq<string>): (r: seq<string>)
    ensures NoAdjacentDup(r)
    ensures xs == [] <==> r == []
    ensures xs != [] ==> r[|r| - 1] == xs[|xs| - 1]
  {
    if xs == [] then []
    else
      var c := Collapse(xs[..|xs| - 1]);
      if c != [] && c[|c| - 1] == xs[|xs| - 1] then c else c + [xs[|xs| - 1]]
  }

  /** A history without repeats is its own collapse. */
  lemma {:induction false} CollapseOfNoDup(xs: seq<string>)
    requires NoAdjacentDup(xs)
    ensures Collapse(xs) == xs
  {
    if xs != [] {
      var init := xs[..|xs| - 1];
      assert NoAdjacentDup(init) by {
        forall i | 0 < i < |init| ensures init[i - 1] != init[i] {
          assert init[i - 1] == xs[i - 1] && init[i] == xs[i];
        }
      }
      CollapseOfNoDup(init);
      assert init + [xs[|xs| - 1]] == xs;
    }
  }

  lemma CollapseIfNoDup(xs: seq<string>)
    ensures NoAdjacentDup(xs) ==> Collapse(xs) == xs
  {
    if NoAdjacentDup(xs) { CollapseOfNoDup(xs); }
  }

  lemma {:induction false} CollapseSnoc(xs: seq<string>, x: string)
    ensures Collapse(xs + [x]) == AddToHistory(Collapse(xs), x)
  {
    assert (xs + [x])[..|xs + [x]| - 1] == xs;
  }

  /**
   * Feeding inputs one by one into a duplicate-free history gives the history followed by
   * the inputs, with runs of repeated commands collapsed.
   */
  lemma {:induction false} AddAllIsCollapse(h: seq<string>, inputs: seq<string>)
    requires NoAdjacentDup(h)
    ensures AddAll(h, inputs) == Collapse(h + inputs)
    decreases |inputs|
  {
    if inputs == [] {
      assert h + inputs == h;
      CollapseOfNoDup(h);
    } else {
      var x, rest := inputs[0], inputs[1..];
      var h' := AddToHistory(h, x);
      assert AddAll(h, inputs) == AddAll(h', rest);
      AddAllIsCollapse(h', rest);
      AddOneCollapse(h, x, rest);
      assert [x] + rest == inputs;
    }
  }

  /** One input added to a duplicate-free history collapses like the input kept in front of the rest. */
  lemma {:induction false} AddOneCollapse(h: seq<string>, x: string, rest: seq<string>)
    requires NoAdjacentDup(h)
    ensures Collapse(AddToHistory(h, x) + rest) == Collapse(h + ([x] + rest))
  {
    CollapseOfNoDup(h);
    CollapseSnoc(h, x);
    CollapseConcat(h + [x], rest);
    assert h + ([x] + rest) == (h + [x]) + rest;
  }

  /** Collapsing a prefix first does not change the overall collapse. */
  lemma {:induction false} CollapseConcat(a: seq<string>, b: seq<string>)
    ensures Collapse(a + b) == Collapse(Collapse(a) + b)
    decreases |b|
  {
    if b == [] {
      assert a + b == a;
      assert Collapse(a) + b == Collapse(a);
      CollapseOfNoDup(Collapse(a));
    } else {
      var b' := b[..|b| - 1];
      var x := b[|b| - 1];
      CollapseConcat(a, b');
      assert a + b == (a + b') + [x];
      assert Collapse(a) + b == (Collapse(a) + b') + [x];
      CollapseSnoc(a + b', x);
      CollapseSnoc(Collapse(a) + b', x);
    }
  }
}
