/** The wallpaper index of nextbg.py as values: the `images` list and the
    `offset` of the current wallpaper, and what each operation of the script
    makes of them. The class in NextBg performs the same steps in place and is
    proved against these functions. */
module IndexState {
  import opened SortedSets

  /** The two keys of the config dict the state machine reads and writes.
      `offset` is any integer: the config file may hold anything there, and a
      scan does not touch it. */
  datatype Index = Index(images: seq<string>, offset: int)

  /** The images and offset of `DEFAULT_CONFIG`. */
  const DefaultIndex: Index := Index([], 0)

  /** The step `main` navigates by when no -n, -p or -s is given. */
  const DefaultStep: int := 1

  /** The exceptions the operations raise: the `RuntimeError` for an empty
      list, and the `IndexError` of reading the list at a bad offset. */
  datatype Error = NoImages | IndexError

  datatype Option<T> = None | Some(value: T)

  datatype Result<T> = Ok(value: T) | Err(error: Error)

  /** The index after an operation, with what the operation returned. */
  datatype Outcome<T> = Outcome(after: Index, result: Result<T>)

  /** Python's `(offset + delta) % n` for `n > 0`. Python's remainder takes the
      sign of the divisor, so for a positive divisor it agrees with Dafny's. */
  function Wrap(offset: int, delta: int, n: nat): (o: int)
    requires n > 0
    ensures 0 <= o < n
    ensures (offset + delta - o) % n == 0
  {
    var o := (offset + delta) % n;
    MultipleMod(n, (offset + delta) / n);
    o
  }

  /** Python accepts a list index `i` when `-n <= i < n`. */
  predicate Indexable(i: int, n: int)
  {
    -n <= i < n
  }

  /** The position a Python list index denotes: negative ones count from the end. */
  function Position(i: int, n: int): (k: nat)
    requires Indexable(i, n)
    ensures k < n
    ensures k == i || k == i + n
  {
    if i < 0 then i + n else i
  }

  /** `increment_image(cfg, delta)`. */
  function Incremented(s: Index, delta: int): (o: Outcome<string>)
    ensures s.images == [] ==> o == Outcome(s, Err(NoImages))
    ensures s.images != [] ==>
      && o.after.images == s.images
      && 0 <= o.after.offset < |s.images|
      && (s.offset + delta - o.after.offset) % |s.images| == 0
      && o.result == Ok(s.images[o.after.offset])
  {
    if |s.images| == 0 then
      Outcome(s, Err(NoImages))
    else
      var offset := Wrap(s.offset, delta, |s.images|);
      Outcome(s.(offset := offset), Ok(s.images[offset]))
  }

  /** `random_image(cfg, ...)`, with `random.randint(0, len - 1)` drawn as `pick`. */
  function Randomized(s: Index, pick: nat): (o: Outcome<string>)
    requires s.images != [] ==> pick < |s.images|
    ensures s.images == [] ==> o == Outcome(s, Err(NoImages))
    ensures s.images != [] ==>
      && o.after.images == s.images
      && 0 <= o.after.offset < |s.images|
      && o.after.offset == pick
      && o.result == Ok(s.images[o.after.offset])
  {
    if |s.images| == 0 then
      Outcome(s, Err(NoImages))
    else
      Outcome(s.(offset := pick), Ok(s.images[pick]))
  }

  /** An image path as the optional result of `main`'s mode step. */
  function Lift(o: Outcome<string>): Outcome<Option<string>>
  {
    match o.result
    case Ok(f) => Outcome(o.after, Ok(Some(f)))
    case Err(e) => Outcome(o.after, Err(e))
  }

  /** `delete_current_image(cfg)`: pop the entry at the offset, then re-read
      the current entry through `increment_image(cfg, 0)`; `None` once the
      list is empty. */
  function Deleted(s: Index): (o: Outcome<Option<string>>)
    ensures s.images == [] ==> o == Outcome(s, Err(NoImages))
    ensures s.images != [] && !Indexable(s.offset, |s.images|) ==> o == Outcome(s, Err(IndexError))
    ensures s.images != [] && Indexable(s.offset, |s.images|) ==>
      && |o.after.images| == |s.images| - 1
      && multiset(o.after.images) + multiset{s.images[Position(s.offset, |s.images|)]} == multiset(s.images)
      && (o.result == Ok(None) <==> o.after.images == [])
      && (o.after.images == [] ==> o.after.offset == s.offset)
      && (o.after.images != [] ==>
            && 0 <= o.after.offset < |o.after.images|
            && o.after.offset == s.offset % |o.after.images|
            && o.result == Ok(Some(o.after.images[o.after.offset])))
  {
    if |s.images| == 0 then
      Outcome(s, Err(NoImages))
    else if !Indexable(s.offset, |s.images|) then
      Outcome(s, Err(IndexError))
    else
      var k := Position(s.offset, |s.images|);
      var rest := Index(s.images[..k] + s.images[k + 1..], s.offset);
      assert s.images == s.images[..k] + [s.images[k]] + s.images[k + 1..];
      if |rest.images| > 0 then Lift(Incremented(rest, 0)) else Outcome(rest, Ok(None))
  }

  /** The scan merge of `main`: the scanned paths replace the list, or extend
      it when `additive`, and the result is put through `sorted(set(...))`.
      The offset is left as it was. */
  function Rescanned(s: Index, scanned: seq<string>, additive: bool): (t: Index)
    ensures StrictlySorted(t.images)
    ensures forall i, j :: 0 <= i < |t.images| && 0 <= j < |t.images| && i != j ==> t.images[i] != t.images[j]
    ensures Elems(t.images) == if additive then Elems(s.images) + Elems(scanned) else Elems(scanned)
    ensures t.offset == s.offset
  {
    var merged := if additive then s.images + scanned else scanned;
    ElemsAppend(s.images, scanned);
    SortedHasNoDuplicates(SortedUnique(merged));
    Index(SortedUnique(merged), s.offset)
  }

  /** The random choice is only drawn on the random path with a non-empty list,
      and `randint` then draws it in range. */
  predicate PickFits(images: seq<string>, deleteFlag: bool, randomFlag: bool, pick: nat)
  {
    !deleteFlag && randomFlag && images != [] ==> pick < |images|
  }

  /** The mode step of `main`: delete, else random, else increment by `step`.
      A returned image is the current entry of the list; an error leaves the
      index as it was; `None` only when the list has been emptied. */
  function Dispatched(s: Index, deleteFlag: bool, randomFlag: bool, step: int, pick: nat): (o: Outcome<Option<string>>)
    requires PickFits(s.images, deleteFlag, randomFlag, pick)
    ensures o.result.Err? ==> o.after == s
    ensures o.result.Ok? && o.result.value.Some? ==>
      && 0 <= o.after.offset < |o.after.images|
      && o.result.value.value == o.after.images[o.after.offset]
    ensures o.result == Ok(None) <==> deleteFlag && |s.images| == 1 && Indexable(s.offset, 1)
  {
    if deleteFlag then Deleted(s)
    else if randomFlag then Lift(Randomized(s, pick))
    else Lift(Incremented(s, step))
  }

  /** The index once the optional scan of `main` has run. */
  function Scanned(s: Index, scanned: Option<seq<string>>, additive: bool): Index
  {
    match scanned
    case None => s
    case Some(paths) => Rescanned(s, paths, additive)
  }

  /** `main` from the scan to the choice of the image to apply: the optional
      scan merge, then the mode step. After a scan that step works on the
      sorted list, and a successful step leaves it sorted. */
  function Invoked(s: Index, scanned: Option<seq<string>>, additive: bool,
                   deleteFlag: bool, randomFlag: bool, step: int, pick: nat): (o: Outcome<Option<string>>)
    requires PickFits(Scanned(s, scanned, additive).images, deleteFlag, randomFlag, pick)
    ensures o.result.Err? ==> o.after == Scanned(s, scanned, additive)
    ensures o.result.Ok? && o.result.value.Some? ==>
      && 0 <= o.after.offset < |o.after.images|
      && o.result.value.value == o.after.images[o.after.offset]
    ensures scanned.Some? && o.result.Ok? ==> StrictlySorted(o.after.images)
  {
    var t := Scanned(s, scanned, additive);
    var o := Dispatched(t, deleteFlag, randomFlag, step, pick);
    if scanned.Some? && deleteFlag && Indexable(t.offset, |t.images|) then
      RemoveKeepsSorted(t.images, Position(t.offset, |t.images|));
      DeleteRemovesCurrent(t);
      o
    else
      o
  }

  // ---------------------------------------------------------------------
  // Arithmetic of the wrap-around

  lemma MultipleMod(n: int, q: int)
    requires n > 0
    ensures (n * q) % n == 0
  {
    ModUnique(n * q, n, q, 0);
  }

  /** The quotient and remainder of Euclidean division are unique. */
  lemma ModUnique(x: int, n: int, q: int, r: int)
    requires n > 0 && 0 <= r < n && x == n * q + r
    ensures x % n == r
  {
    var q', r' := x / n, x % n;
    assert x == n * q' + r';
    if q' < q {
      MulAtLeast(n, q - q');
      assert false;
    } else if q < q' {
      MulAtLeast(n, q' - q);
      assert false;
    }
  }

  lemma {:induction false} MulAtLeast(n: int, d: int)
    requires n > 0 && d >= 1
    ensures n * d >= n
  {
    if d > 1 {
      MulAtLeast(n, d - 1);
      assert n * d == n * (d - 1) + n;
    }
  }

  /** Reducing before adding does not change the remainder. */
  lemma ModAdd(x: int, d: int, n: int)
    requires n > 0
    ensures (x % n + d) % n == (x + d) % n
  {
    var q, r := (x + d) / n, (x + d) % n;
    assert x % n + d == n * (q - x / n) + r;
    ModUnique(x % n + d, n, q - x / n, r);
  }

  // ---------------------------------------------------------------------
  // Navigation

  /** Two increments add up: stepping by `a` and then `b` lands where one step
      by `a + b` does. */
  lemma IncrementsCompose(s: Index, a: int, b: int)
    requires s.images != []
    ensures Incremented(Incremented(s, a).after, b) == Incremented(s, a + b)
  {
    var n := |s.images|;
    var t := Incremented(s, a).after;
    assert t == s.(offset := (s.offset + a) % n);
    ModAdd(s.offset + a, b, n);
    assert Incremented(t, b).after == s.(offset := (s.offset + a + b) % n);
  }

  /** -p at the first image wraps to the last one. */
  lemma PrevWrapsToLast(s: Index)
    requires s.images != [] && s.offset == 0
    ensures Incremented(s, -1).after.offset == |s.images| - 1
    ensures Incremented(s, -1).result == Ok(s.images[|s.images| - 1])
  {
    ModUnique(-1, |s.images|, -1, |s.images| - 1);
  }

  /** -s keeps an offset that is in range, and so re-applies the same image. */
  lemma SameKeepsOffset(s: Index)
    requires 0 <= s.offset < |s.images|
    ensures Incremented(s, 0) == Outcome(s, Ok(s.images[s.offset]))
  {
    ModUnique(s.offset, |s.images|, 0, s.offset);
  }

  /** -p undoes -n. */
  lemma PrevUndoesNext(s: Index)
    requires 0 <= s.offset < |s.images|
    ensures Incremented(Incremented(s, 1).after, -1).after == s
  {
    IncrementsCompose(s, 1, -1);
    SameKeepsOffset(s);
  }

  /** The index after `k` invocations with -n. */
  function NextTimes(s: Index, k: nat): Index
  {
    if k == 0 then s else Incremented(NextTimes(s, k - 1), 1).after
  }

  lemma {:induction false} NextTimesOffset(s: Index, k: nat)
    requires s.images != []
    ensures NextTimes(s, k).images == s.images
    ensures k > 0 ==> NextTimes(s, k).offset == (s.offset + k) % |s.images|
  {
    if k > 0 {
      NextTimesOffset(s, k - 1);
      if k > 1 {
        ModAdd(s.offset + (k - 1), 1, |s.images|);
      }
    }
  }

  /** Going forward once per image comes back to the starting image. */
  lemma NextCycles(s: Index)
    requires 0 <= s.offset < |s.images|
    ensures NextTimes(s, |s.images|) == s
  {
    var n := |s.images|;
    var t := NextTimes(s, n);
    assert t.images == s.images && t.offset == (s.offset + n) % n by {
      NextTimesOffset(s, n);
    }
    assert (s.offset + n) % n == s.offset by {
      ModUnique(s.offset + n, n, 1, s.offset);
    }
  }

  // ---------------------------------------------------------------------
  // Deletion

  /** The pop removes exactly the entry at the offset and keeps the others in
      their order. */
  lemma DeleteRemovesCurrent(s: Index)
    requires Indexable(s.offset, |s.images|)
    ensures var k := Position(s.offset, |s.images|);
      Deleted(s).after.images == s.images[..k] + s.images[k + 1..]
  {
  }

  /** Deleting the current image at an offset in range moves on to the image
      that followed it, or to the first one after deleting the last. */
  lemma DeleteMovesToFollower(s: Index)
    requires 0 <= s.offset < |s.images| && |s.images| > 1
    ensures Deleted(s).after.offset == if s.offset == |s.images| - 1 then 0 else s.offset
    ensures Deleted(s).result == Ok(Some(s.images[(s.offset + 1) % |s.images|]))
  {
    var n := |s.images|;
    if s.offset == n - 1 {
      ModUnique(s.offset, n - 1, 1, 0);
      ModUnique(s.offset + 1, n, 1, 0);
    } else {
      ModUnique(s.offset, n - 1, 0, s.offset);
      ModUnique(s.offset + 1, n, 0, s.offset + 1);
    }
  }

  /** At offset -1 the pop takes the last image, but the offset then wraps to
      the new last entry: the image before the deleted one is applied, not the
      first image. */
  lemma DeleteAtMinusOneMovesBack(s: Index)
    requires s.offset == -1 && |s.images| > 1
    ensures Deleted(s).after == Index(s.images[..|s.images| - 1], |s.images| - 2)
    ensures Deleted(s).result == Ok(Some(s.images[|s.images| - 2]))
  {
    var n := |s.images|;
    ModUnique(-1, n - 1, -1, n - 2);
  }

  /** There is no refusal to delete the only image: the list is emptied, the
      offset is kept, and there is no image to apply. */
  lemma DeleteOnlyImage(s: Index)
    requires |s.images| == 1 && Indexable(s.offset, 1)
    ensures Deleted(s) == Outcome(Index([], s.offset), Ok(None))
  {
  }

  // ---------------------------------------------------------------------
  // Scanning

  /** The order and repetitions of the scanned paths do not matter. */
  lemma RescanDependsOnPathsOnly(s: Index, a: seq<string>, b: seq<string>, additive: bool)
    requires Elems(a) == Elems(b)
    ensures Rescanned(s, a, additive) == Rescanned(s, b, additive)
  {
    SortedDeterminedByElems(Rescanned(s, a, additive).images, Rescanned(s, b, additive).images);
  }

  /** Adding the same scan twice adds nothing the second time. */
  lemma RescanAdditiveIdempotent(s: Index, scanned: seq<string>)
    ensures var t := Rescanned(s, scanned, true); Rescanned(t, scanned, true) == t
  {
    var t := Rescanned(s, scanned, true);
    SortedDeterminedByElems(Rescanned(t, scanned, true).images, t.images);
  }

  /** A replacing scan of a list already sorted and duplicate-free keeps its order. */
  lemma RescanOfSortedKeepsOrder(s: Index, scanned: seq<string>)
    requires StrictlySorted(scanned)
    ensures Rescanned(s, scanned, false).images == scanned
  {
    SortedDeterminedByElems(Rescanned(s, scanned, false).images, scanned);
  }

  // ---------------------------------------------------------------------
  // Mode precedence

  /** -X wins over -R and over the step. */
  lemma DeleteTakesPrecedence(s: Index, randomFlag: bool, step: int, pick: nat)
    ensures Dispatched(s, true, randomFlag, step, pick) == Deleted(s)
  {
  }

  /** -R ignores -n, -p and -s. */
  lemma RandomIgnoresStep(s: Index, step1: int, step2: int, pick: nat)
    requires s.images != [] ==> pick < |s.images|
    ensures Dispatched(s, false, true, step1, pick) == Dispatched(s, false, true, step2, pick)
    ensures Dispatched(s, false, true, step1, pick) == Lift(Randomized(s, pick))
  {
  }

  /** With no mode flag `main` goes to the next image. */
  lemma DefaultIsNext(s: Index, pick: nat)
    requires s.images != []
    ensures Dispatched(s, false, false, DefaultStep, pick).after.offset == (s.offset + 1) % |s.images|
  {
  }

  /** In a fresh configuration every mode fails for want of images. */
  lemma FreshConfigHasNoImages(deleteFlag: bool, randomFlag: bool, step: int, pick: nat)
    ensures Dispatched(DefaultIndex, deleteFlag, randomFlag, step, pick) == Outcome(DefaultIndex, Err(NoImages))
  {
  }
}
