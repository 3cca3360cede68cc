/** The fullscreen image viewer: the list of images on show, the index of
    the current one, and whether the viewer is open
    (`openFullscreenViewer`, `showFullscreenImage` and their callers). */
module Gallery {

  datatype Viewer = Viewer(images: seq<string>, index: int, open: bool)

  /** The viewer points at an existing image whenever it has any. */
  predicate WellPlaced(v: Viewer) {
    |v.images| > 0 ==> 0 <= v.index < |v.images|
  }

  /** `openFullscreenViewer(images, start)`: an empty list leaves the
      viewer untouched; otherwise the list and start index are taken as
      given (the index is not checked). */
  function Open(v: Viewer, images: seq<string>, start: int): (r: Viewer)
    ensures |images| == 0 ==> r == v
    ensures |images| > 0 ==> r.open && r.images == images && r.index == start
    ensures |images| > 0 && 0 <= start < |images| ==> WellPlaced(r)
  {
    if |images| == 0 then v else Viewer(images, start, true)
  }

  function Close(v: Viewer): (r: Viewer)
    ensures !r.open && r.images == v.images && r.index == v.index
  {
    v.(open := false)
  }

  /** `showFullscreenImage(index)`: a step before the first image goes to
      the last and a step past the last goes to the first. */
  function Show(v: Viewer, index: int): (r: Viewer)
    ensures r.images == v.images && r.open == v.open
    ensures WellPlaced(r)
    ensures 0 <= index < |v.images| ==> r.index == index
    ensures index < 0 ==> r.index == |v.images| - 1
    ensures index >= |v.images| ==> r.index == 0
  {
    var i := if index < 0 then |v.images| - 1 else if index >= |v.images| then 0 else index;
    v.(index := i)
  }

  /** The next-image button: one step forward, wrapping to the first. */
  function Next(v: Viewer): (r: Viewer)
    ensures r.images == v.images && r.open == v.open
    ensures |v.images| > 0 && WellPlaced(v) ==> r.index == (v.index + 1) % |v.images|
  {
    if |v.images| > 0 && WellPlaced(v) then
      StepResidues(v.index, |v.images|);
      Show(v, v.index + 1)
    else Show(v, v.index + 1)
  }

  /** The previous-image button: one step back, wrapping to the last. */
  function Prev(v: Viewer): (r: Viewer)
    ensures r.images == v.images && r.open == v.open
    ensures |v.images| > 0 && WellPlaced(v) ==> r.index == (v.index - 1) % |v.images|
  {
    if |v.images| > 0 && WellPlaced(v) then
      StepResidues(v.index, |v.images|);
      Show(v, v.index - 1)
    else Show(v, v.index - 1)
  }

  /** Previous undoes next, and next undoes previous. */
  lemma PrevUndoesNext(v: Viewer)
    requires |v.images| > 0 && WellPlaced(v)
    ensures Prev(Next(v)) == v
    ensures Next(Prev(v)) == v
  {
  }

  /** Stepping forward `n` times. */
  function Forward(v: Viewer, n: nat): Viewer {
    if n == 0 then v else Next(Forward(v, n - 1))
  }

  /** Stepping backward `n` times. */
  function Backward(v: Viewer, n: nat): Viewer {
    if n == 0 then v else Prev(Backward(v, n - 1))
  }

  /** Stepping forward cycles through the images: after `n` steps the
      viewer shows image `(start + n) mod len`. */
  lemma {:induction false} ForwardCycles(v: Viewer, n: nat)
    requires |v.images| > 0 && WellPlaced(v)
    ensures Forward(v, n).index == (v.index + n) % |v.images|
    ensures Forward(v, n).images == v.images && Forward(v, n).open == v.open
  {
    if n > 0 {
      ForwardCycles(v, n - 1);
      var len := |v.images|;
      var i := (v.index + n - 1) % len;
      if i + 1 == len {
        assert (v.index + n) % len == 0 by { ModNext(v.index + n - 1, len); }
      } else {
        assert (v.index + n) % len == i + 1 by { ModNext(v.index + n - 1, len); }
      }
    }
  }

  /** Stepping backward cycles the other way. */
  lemma {:induction false} BackwardCycles(v: Viewer, n: nat)
    requires |v.images| > 0 && WellPlaced(v)
    ensures Backward(v, n).index == (v.index - n) % |v.images|
    ensures Backward(v, n).images == v.images && Backward(v, n).open == v.open
  {
    if n > 0 {
      BackwardCycles(v, n - 1);
      var len := |v.images|;
      var i := (v.index - (n - 1)) % len;
      assert v.index - (n - 1) == (v.index - n) + 1;
      if i == 0 {
        assert (v.index - n) % len == len - 1 by { ModNext(v.index - n, len); }
      } else {
        assert (v.index - n) % len == i - 1 by { ModNext(v.index - n, len); }
      }
    }
  }

  /** A full round of `len` steps comes back to the starting image. */
  lemma FullRoundReturns(v: Viewer)
    requires |v.images| > 0 && WellPlaced(v)
    ensures Forward(v, |v.images|) == v
    ensures Backward(v, |v.images|) == v
  {
    var len := |v.images|;
    SameResidueAfterRound(v.index, len);
    ForwardCycles(v, len);
    BackwardCycles(v, len);
  }

  /** One step either way from an in-range residue, with wrap-around. */
  lemma StepResidues(i: int, len: nat)
    requires 0 <= i < len
    ensures (i + 1) % len == if i + 1 < len then i + 1 else 0
    ensures (i - 1) % len == if i > 0 then i - 1 else len - 1
  {
    if i + 1 < len {
      ModUnique(i + 1, 0, i + 1, len);
    } else {
      ModUnique(i + 1, 1, 0, len);
    }
    if i > 0 {
      ModUnique(i - 1, 0, i - 1, len);
    } else {
      ModUnique(i - 1, -1, len - 1, len);
    }
  }

  /** Adding or taking away one modulus keeps an in-range residue. */
  lemma SameResidueAfterRound(i: int, len: nat)
    requires 0 <= i < len
    ensures (i + len) % len == i && (i - len) % len == i
  {
    ModUnique(i + len, 1, i, len);
    ModUnique(i - len, -1, i, len);
  }

  lemma DivMod(x: int, len: nat)
    requires len > 0
    ensures x == (x / len) * len + x % len && 0 <= x % len < len
  {
  }

  lemma ProductAtLeast(d: int, len: nat)
    requires len > 0 && d > 0
    ensures d * len >= len
  {
  }

  lemma Distribute(a: int, b: int, len: int)
    ensures (a - b) * len == a * len - b * len
  {
  }

  /** The remainder is determined by any quotient-remainder split. */
  lemma ModUnique(x: int, q: int, r: int, len: nat)
    requires len > 0 && 0 <= r < len && x == q * len + r
    ensures x % len == r
  {
    var q' := x / len;
    DivMod(x, len);
    Distribute(q, q', len);
    if q > q' {
      ProductAtLeast(q - q', len);
    } else if q < q' {
      ProductAtLeast(q' - q, len);
      Distribute(q', q, len);
    }
  }

  /** Successor of a residue. */
  lemma ModNext(a: int, len: nat)
    requires len > 0
    ensures (a + 1) % len == if a % len + 1 == len then 0 else a % len + 1
  {
    var q := a / len;
    DivMod(a, len);
    if a % len + 1 == len {
      ModUnique(a + 1, q + 1, 0, len);
    } else {
      ModUnique(a + 1, q, a % len + 1, len);
    }
  }

  /** Inputs that drive the viewer. Buttons and the backdrop act whenever
      clicked; keys and the wheel act only while the viewer is open; Escape
      closes it. */
  datatype Input = PrevButton | NextButton | CloseButton | BackdropClick | ArrowLeft | ArrowRight
                 | WheelUp | WheelDown | Escape

  function Handle(v: Viewer, e: Input): (r: Viewer)
    ensures r.images == v.images
    ensures !v.open && e !in {PrevButton, NextButton} ==> r.index == v.index
    ensures e in {Escape, CloseButton, BackdropClick} ==> !r.open
    ensures WellPlaced(v) ==> WellPlaced(r)
    ensures !v.open && e !in {PrevButton, NextButton, CloseButton, BackdropClick} ==> r == v
    ensures e in {CloseButton, BackdropClick} || (v.open && e == Escape) ==> r == Close(v)
    ensures e == NextButton || (v.open && e in {ArrowRight, WheelDown}) ==> r == Next(v)
    ensures e == PrevButton || (v.open && e in {ArrowLeft, WheelUp}) ==> r == Prev(v)
  {
    match e
    case PrevButton => Prev(v)
    case NextButton => Next(v)
    case CloseButton => Close(v)
    case BackdropClick => Close(v)
    case Escape => if v.open then Close(v) else v
    case ArrowLeft => if v.open then Prev(v) else v
    case WheelUp => if v.open then Prev(v) else v
    case ArrowRight => if v.open then Next(v) else v
    case WheelDown => if v.open then Next(v) else v
  }
}
