/** The `cfg` dict of one run of nextbg.py and the operations that change it in
    place. Each method takes the same steps as the script and is proved to
    leave the index, and to return, what the functions of IndexState say. */
module NextBg {
  import opened SortedSets
  import opened IndexState

  /** The part of the loaded config the wallpaper state machine updates:
      the image list and the offset of the current wallpaper. */
  class Config {
    var images: seq<string>
    var offset: int

    /** `DEFAULT_CONFIG`: no images yet, offset 0. */
    constructor ()
      ensures images == [] && offset == 0
      ensures State() == DefaultIndex
    {
      images := [];
      offset := 0;
    }

    function State(): Index
      reads this
    {
      Index(images, offset)
    }

    /** `increment_image(cfg, delta)`. */
    method IncrementImage(delta: int) returns (r: Result<string>)
      modifies this
      ensures Outcome(State(), r) == Incremented(old(State()), delta)
      ensures images == old(images)
      ensures old(images) == [] ==> r == Err(NoImages) && offset == old(offset)
      ensures old(images) != [] ==> 0 <= offset < |images| && r == Ok(images[offset])
    {
      if |images| == 0 {
        return Err(NoImages);
      }
      offset := (offset + delta) % |images|;
      r := Ok(images[offset]);
    }

    /** `random_image(cfg, ...)`; `pick` is what `random.randint(0, len - 1)` drew. */
    method RandomImage(pick: nat) returns (r: Result<string>)
      requires images != [] ==> pick < |images|
      modifies this
      ensures Outcome(State(), r) == Randomized(old(State()), pick)
      ensures images == old(images)
      ensures old(images) == [] ==> r == Err(NoImages) && offset == old(offset)
      ensures old(images) != [] ==> offset == pick && r == Ok(images[offset])
    {
      if |images| == 0 {
        return Err(NoImages);
      }
      offset := pick;
      r := Ok(images[offset]);
    }

    /** `delete_current_image(cfg)`, without the removal of the file itself. */
    method DeleteCurrentImage() returns (r: Result<Option<string>>)
      modifies this
      ensures Outcome(State(), r) == Deleted(old(State()))
      ensures r.Err? ==> images == old(images) && offset == old(offset)
      ensures r.Ok? ==> |images| == |old(images)| - 1
      ensures r == Ok(None) ==> images == [] && offset == old(offset)
      ensures r.Ok? && r.value.Some? ==> 0 <= offset < |images| && r.value.value == images[offset]
      ensures r.Ok? && images != [] ==> offset == old(offset) % |images|
    {
      if |images| == 0 {
        return Err(NoImages);
      }
      if !(-|images| <= offset < |images|) {
        // reading the list at the offset raises before anything changes
        return Err(IndexError);
      }
      var k := if offset < 0 then offset + |images| else offset;
      images := images[..k] + images[k + 1..];
      if |images| > 0 {
        var current := IncrementImage(0);
        match current
        case Ok(f) => r := Ok(Some(f));
        case Err(e) => r := Err(e);
      } else {
        r := Ok(None);
      }
    }

    /** The scan merge of `main`: replace or extend the list with the scanned
        paths, then `sorted(set(...))`. The offset is not touched. */
    method MergeScan(scanned: seq<string>, additive: bool)
      modifies this
      ensures State() == Rescanned(old(State()), scanned, additive)
      ensures StrictlySorted(images)
      ensures Elems(images) == if additive then Elems(old(images)) + Elems(scanned) else Elems(scanned)
      ensures offset == old(offset)
    {
      if additive {
        images := images + scanned;
      } else {
        images := scanned;
      }
      images := SortedUnique(images);
    }

    /** The mode step of `main`: -X, else -R, else the step of -n, -p or -s. */
    method Dispatch(deleteFlag: bool, randomFlag: bool, step: int, pick: nat) returns (r: Result<Option<string>>)
      requires PickFits(images, deleteFlag, randomFlag, pick)
      modifies this
      ensures Outcome(State(), r) == Dispatched(old(State()), deleteFlag, randomFlag, step, pick)
      ensures r.Err? ==> images == old(images) && offset == old(offset)
      ensures r.Ok? && r.value.Some? ==> 0 <= offset < |images| && r.value.value == images[offset]
    {
      if deleteFlag {
        r := DeleteCurrentImage();
      } else if randomFlag {
        var current := RandomImage(pick);
        r := match current case Ok(f) => Ok(Some(f)) case Err(e) => Err(e);
      } else {
        var current := IncrementImage(step);
        r := match current case Ok(f) => Ok(Some(f)) case Err(e) => Err(e);
      }
    }

    /** `main` from the optional scan to the image it hands to `apply_image`
        (`Ok(None)`: nothing to apply). */
    method Run(scanned: Option<seq<string>>, additive: bool, deleteFlag: bool, randomFlag: bool,
               step: int, pick: nat) returns (r: Result<Option<string>>)
      requires PickFits(Scanned(State(), scanned, additive).images, deleteFlag, randomFlag, pick)
      modifies this
      ensures Outcome(State(), r) == Invoked(old(State()), scanned, additive, deleteFlag, randomFlag, step, pick)
      ensures r.Ok? && r.value.Some? ==> 0 <= offset < |images| && r.value.value == images[offset]
      ensures scanned.Some? && r.Ok? ==> StrictlySorted(images)
    {
      if scanned.Some? {
        MergeScan(scanned.value, additive);
      }
      r := Dispatch(deleteFlag, randomFlag, step, pick);
    }
  }
}
