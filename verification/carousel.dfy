/**
 The memory carousel: slides with `is-active` marks, one dot per slide
 with the same marks, and the index of the current slide, which wraps in
 both directions.
 */
module Carousel {
  import opened Arith

  datatype Option<T> = None | Some(value: T)

  /** The carousel's state: the `is-active` marks of the slides and of
      the dots, and the current index. */
  datatype State = State(slides: seq<bool>, dots: seq<bool>, current: int)

  predicate Valid(c: State) {
    && |c.slides| > 0
    && |c.dots| == |c.slides|
    && 0 <= c.current < |c.slides|
  }

  /** Exactly the entry at `i` is marked. */
  predicate MarkedOnly(marks: seq<bool>, i: int) {
    forall j :: 0 <= j < |marks| ==> (marks[j] <==> j == i)
  }

  /** No two entries are marked. */
  predicate AtMostOneMarked(marks: seq<bool>) {
    forall i, j :: 0 <= i < j < |marks| && marks[i] ==> !marks[j]
  }

  /** Both the slide marks and the dot marks single out the current slide. */
  predicate Consistent(c: State) {
    Valid(c) && MarkedOnly(c.slides, c.current) && MarkedOnly(c.dots, c.current)
  }

  /** `slides.findIndex(...)` on the marks: the first marked index, or -1. */
  function FirstMarked(marks: seq<bool>): (k: int)
    ensures -1 <= k < |marks|
    ensures k == -1 <==> forall j :: 0 <= j < |marks| ==> !marks[j]
    ensures k >= 0 ==> marks[k] && forall j :: 0 <= j < k ==> !marks[j]
  {
    if |marks| == 0 then -1
    else if marks[0] then 0
    else
      var k := FirstMarked(marks[1..]);
      if k < 0 then -1 else k + 1
  }

  /** `initCarousel`: no carousel without slides or without a dots
      container; otherwise the first marked slide is current (slide 0, now
      marked, when none is), and one dot per slide is made, marked for the
      current slide only. */
  function Init(marks: seq<bool>, hasDots: bool): (r: Option<State>)
    ensures r.None? <==> |marks| == 0 || !hasDots
    ensures r.Some? ==> Valid(r.value) && |r.value.slides| == |marks|
    ensures r.Some? ==> r.value.slides[r.value.current] && MarkedOnly(r.value.dots, r.value.current)
    ensures r.Some? ==> forall j :: 0 <= j < r.value.current ==> !marks[j]
    ensures r.Some? ==>
              marks[r.value.current] || (r.value.current == 0 && forall j :: 0 <= j < |marks| ==> !marks[j])
    ensures r.Some? ==> forall j :: 0 <= j < |marks| && j != r.value.current ==> r.value.slides[j] == marks[j]
    ensures r.Some? && AtMostOneMarked(marks) ==> Consistent(r.value)
  {
    if |marks| == 0 || !hasDots then None
    else
      var k := FirstMarked(marks);
      var current := if k < 0 then 0 else k;
      Some(State(marks[current := true], seq(|marks|, j => j == current), current))
  }

  /** `(index + n) % n` lies `index` away from a multiple of `n`. */
  lemma WrapCongruent(index: int, n: int)
    requires n > 0
    ensures ((index + n) % n - index) % n == 0
  {
    var q, r := (index + n) / n, (index + n) % n;
    assert index + n == q * n + r;
    assert r - index == (1 - q) * n by {
      assert (1 - q) * n == n - q * n;
    }
    DivModUnique(r - index, n, 1 - q, 0);
  }

  /** `(index + n) % n`. For `index >= -n` the dividend is not negative, so
      the host's remainder and the Euclidean one agree. */
  function Wrap(index: int, n: int): (r: int)
    requires n > 0
    requires index >= -n
    ensures 0 <= r < n
    ensures (r - index) % n == 0
    ensures index < 0 ==> r == index + n
    ensures 0 <= index < n ==> r == index
    ensures n <= index < 2 * n ==> r == index - n
  {
    var r := (index + n) % n;
    assert (r - index) % n == 0 by {
      WrapCongruent(index, n);
    }
    assert index < 0 ==> r == index + n by {
      if index < 0 {
        DivModUnique(index + n, n, 0, index + n);
      }
    }
    assert 0 <= index < n ==> r == index by {
      if 0 <= index < n {
        DivModUnique(index + n, n, 1, index);
      }
    }
    assert n <= index < 2 * n ==> r == index - n by {
      if n <= index < 2 * n {
        DivModUnique(index + n, n, 2, index - n);
      }
    }
    r
  }

  /** `setActive(index)`: unmark the current slide and dot, move to the
      wrapped index, mark its slide and dot. */
  function SetActive(c: State, index: int): (r: State)
    requires Valid(c)
    requires index >= -|c.slides|
    ensures Valid(r) && |r.slides| == |c.slides|
    ensures 0 <= index < |c.slides| ==> r.current == index
    ensures (r.current - index) % |c.slides| == 0
    ensures -|c.slides| <= index < 0 ==> r.current == index + |c.slides|
    ensures index == |c.slides| ==> r.current == 0
    ensures r.slides[r.current] && r.dots[r.current]
    ensures c.current != r.current ==> !r.slides[c.current] && !r.dots[c.current]
    ensures forall j :: 0 <= j < |c.slides| && j != c.current && j != r.current ==>
              r.slides[j] == c.slides[j] && r.dots[j] == c.dots[j]
    ensures Consistent(c) ==> Consistent(r)
  {
    var i := Wrap(index, |c.slides|);
    State(c.slides[c.current := false][i := true], c.dots[c.current := false][i := true], i)
  }

  /** `goNext`: the next slide, from the last back to the first. */
  function GoNext(c: State): (r: State)
    requires Valid(c)
    ensures Valid(r) && |r.slides| == |c.slides|
    ensures r.current == if c.current == |c.slides| - 1 then 0 else c.current + 1
    ensures Consistent(c) ==> Consistent(r)
  {
    SetActive(c, c.current + 1)
  }

  /** `goPrev`: the previous slide, from the first back to the last. */
  function GoPrev(c: State): (r: State)
    requires Valid(c)
    ensures Valid(r) && |r.slides| == |c.slides|
    ensures r.current == if c.current == 0 then |c.slides| - 1 else c.current - 1
    ensures Consistent(c) ==> Consistent(r)
  {
    SetActive(c, c.current - 1)
  }

  /** Back after forward returns to the same slide; with consistent marks
      the whole state is restored. */
  lemma GoPrevUndoesGoNext(c: State)
    requires Valid(c)
    ensures GoPrev(GoNext(c)).current == c.current
    ensures Consistent(c) ==> GoPrev(GoNext(c)) == c
  {
    var r := GoPrev(GoNext(c));
    if Consistent(c) {
      assert r.slides == c.slides;
      assert r.dots == c.dots;
    }
  }

  /** Forward after back returns to the same slide; with consistent marks
      the whole state is restored. */
  lemma GoNextUndoesGoPrev(c: State)
    requires Valid(c)
    ensures GoNext(GoPrev(c)).current == c.current
    ensures Consistent(c) ==> GoNext(GoPrev(c)) == c
  {
    var r := GoNext(GoPrev(c));
    if Consistent(c) {
      assert r.slides == c.slides;
      assert r.dots == c.dots;
    }
  }

  /** `k` successive `goNext` calls, as the auto-advance timer makes them. */
  function Advance(c: State, k: nat): (r: State)
    requires Valid(c)
    ensures Valid(r) && |r.slides| == |c.slides|
  {
    if k == 0 then c else GoNext(Advance(c, k - 1))
  }

  /** The index one `goNext` moves to from `i` among `n` slides. */
  function NextIndex(i: int, n: int): int {
    if i == n - 1 then 0 else i + 1
  }

  /** `k` applications of `NextIndex`. */
  function StepIndex(i: int, k: nat, n: int): int {
    if k == 0 then i else NextIndex(StepIndex(i, k - 1, n), n)
  }

  /** One more step moves a remainder up by one, or from `n - 1` back to 0. */
  lemma RemainderStep(a: int, n: int)
    requires n > 0
    ensures (a + 1) % n == NextIndex(a % n, n)
  {
    var q, prev := a / n, a % n;
    assert a == q * n + prev;
    assert (q + 1) * n == q * n + n;
    if prev == n - 1 {
      DivModUnique(a + 1, n, q + 1, 0);
    } else {
      DivModUnique(a + 1, n, q, prev + 1);
    }
  }

  /** Stepping `k` times from an index below `n` lands on the index `k`
      further on, modulo `n`. */
  lemma {:induction false} StepIndexIsRemainder(i: int, k: nat, n: int)
    requires 0 <= i < n
    ensures StepIndex(i, k, n) == (i + k) % n
  {
    if k == 0 {
      DivModUnique(i, n, 0, i);
    } else {
      var a := i + (k - 1);
      StepIndexIsRemainder(i, k - 1, n);
      RemainderStep(a, n);
      assert a + 1 == i + k;
    }
  }

  /** `k` steps of the carousel follow `StepIndex`. */
  lemma {:induction false} AdvanceFollowsStepIndex(c: State, k: nat)
    requires Valid(c)
    ensures Advance(c, k).current == StepIndex(c.current, k, |c.slides|)
  {
    if k > 0 {
      AdvanceFollowsStepIndex(c, k - 1);
    }
  }

  /** After `k` steps forward the current slide is `k` further on, modulo
      the number of slides. */
  lemma AdvanceMovesBy(c: State, k: nat)
    requires Valid(c)
    ensures Advance(c, k).current == (c.current + k) % |c.slides|
  {
    AdvanceFollowsStepIndex(c, k);
    StepIndexIsRemainder(c.current, k, |c.slides|);
  }

  /** A full round of `n` steps comes back to the slide it started from. */
  lemma FullRoundReturns(c: State)
    requires Valid(c)
    ensures Advance(c, |c.slides|).current == c.current
  {
    var n := |c.slides|;
    assert (c.current + n) % n == c.current by {
      DivModUnique(c.current + n, n, 1, c.current);
    }
    AdvanceMovesBy(c, n);
  }
}
