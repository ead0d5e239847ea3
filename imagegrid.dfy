/**
 * The ImageGrid controller: a bounded registry of named grids, and the
 * two views of each grid (the thumbnail grid, or one enlarged image with
 * its caption) that `openImage` and `closeImage` switch between.
 */
module ImageGrids {
  import opened Wrappers
  import opened Dom
  import Utils

  /** The registry refuses a new name once it holds more than this many grids. */
  const IMAGE_GRID_LIMIT: nat := 25

  /** The class that `openImage` and `closeImage` toggle on the target element. */
  const NO_DISPLAY := "no-display"

  function GridId(name: string): string { "ig-" + name }

  function TargetId(name: string): string { "ig-target-" + name }

  function CaptionTemplate(name: string): string { name + "-caption-{0}" }

  /**
   * A grid's container and target ids differ, and each determines the
   * grid's name: different grids never share a container id or a target id.
   */
  lemma DerivedIds(name: string, other: string)
    ensures GridId(name) != TargetId(name)
    ensures GridId(name) == GridId(other) <==> name == other
    ensures TargetId(name) == TargetId(other) <==> name == other
  {
    assert |GridId(name)| != |TargetId(name)|;
    if GridId(name) == GridId(other) {
      assert GridId(name)[3..] == name && GridId(other)[3..] == other;
    }
    if TargetId(name) == TargetId(other) {
      assert TargetId(name)[10..] == name && TargetId(other)[10..] == other;
    }
  }

  /**
   * Across grids the two kinds of id can meet: the container of a grid
   * named "target-" + n is the target element of the grid named n, so such
   * two grids on one page would share an element.
   */
  lemma ContainerMeetsTarget(n: string)
    ensures GridId("target-" + n) == TargetId(n)
  {
    assert "ig-" + ("target-" + n) == ("ig-" + "target-") + n;
  }

  /** The ids of the captions of images `0..n`: the caption template formatted with each index. */
  function CaptionIds(template: string, n: nat): (r: seq<string>)
    ensures |r| == n
  {
    seq(n, i => Utils.Format(template, [Utils.Num(i)]))
  }

  /** A text without an opening brace holds no `{digits}` pattern. */
  lemma NoBraceNoPlaceholder(t: string)
    requires forall i :: 0 <= i < |t| ==> t[i] != '{'
    ensures !Utils.HasPlaceholder(t)
  {
    forall i, j | 0 <= i <= j <= |t| ensures !Utils.IsPlaceholder(t[i..j]) {
      if j - i >= 3 {
        assert t[i..j][0] == t[i];
      }
    }
  }

  /** The fixed part of a caption id has no `{digits}` pattern. */
  lemma CaptionMarkerIsPlain()
    ensures !Utils.HasPlaceholder("-caption-")
  {
    var marker := "-caption-";
    assert forall i :: 0 <= i < |marker| ==> marker[i] != '{';
    NoBraceNoPlaceholder(marker);
  }

  /** The slot "{0}" formatted with a number is that number's decimal numeral. */
  lemma SlotZeroIsNumber(i: nat)
    ensures Utils.Format("{0}", [Utils.Num(i)]) == Utils.Decimal(i)
  {
    var args := [Utils.Num(i)];
    assert Utils.Decimal(0) == "0";
    assert "{0}" == "{" + Utils.Decimal(0) + "}" + [];
    Utils.FormatSubstitutes(0, [], args);
    assert Utils.Format([], args) == [];
  }

  /**
   * For a grid name without a `{digits}` pattern of its own, the caption id
   * of image `i` is the name, "-caption-" and the decimal numeral of `i`.
   */
  lemma CaptionIdIsNumbered(name: string, i: nat)
    requires !Utils.HasPlaceholder(name)
    ensures Utils.Format(CaptionTemplate(name), [Utils.Num(i)]) == name + "-caption-" + Utils.Decimal(i)
  {
    var args := [Utils.Num(i)];
    var marker := "-caption-";
    var slot := "{0}";
    assert marker + slot == "-caption-{0}";
    Utils.FormatPlainPrefix(name, marker + slot, args);
    CaptionMarkerIsPlain();
    Utils.FormatPlainPrefix(marker, slot, args);
    SlotZeroIsNumber(i);
    assert name + (marker + Utils.Decimal(i)) == name + marker + Utils.Decimal(i);
  }

  /** The caption of the second image of a grid whose name has no `{digits}` pattern, such as "vacation", ends in "-caption-1". */
  lemma SecondCaption(name: string)
    requires !Utils.HasPlaceholder(name)
    ensures Utils.Format(CaptionTemplate(name), [Utils.Num(1)]) == name + "-caption-1"
  {
    CaptionIdIsNumbered(name, 1);
    assert Utils.Decimal(1) == "1";
  }

  /** For such a name, different images have different caption ids. */
  lemma CaptionIdsDistinct(name: string, n: nat, i: nat, j: nat)
    requires !Utils.HasPlaceholder(name) && i < j < n
    ensures CaptionIds(CaptionTemplate(name), n)[i] != CaptionIds(CaptionTemplate(name), n)[j]
  {
    CaptionIdIsNumbered(name, i);
    CaptionIdIsNumbered(name, j);
    var prefix := name + "-caption-";
    var a := prefix + Utils.Decimal(i);
    var b := prefix + Utils.Decimal(j);
    if a == b {
      assert a[|prefix|..] == Utils.Decimal(i);
      assert b[|prefix|..] == Utils.Decimal(j);
      Utils.DecimalInjective(i, j);
    }
  }

  /** `display` of an element that is shown when `visible` holds and hidden otherwise. */
  function Visibility(visible: bool): string {
    if visible then DISPLAY_BLOCK else DISPLAY_NONE
  }

  // ---------------------------------------------------------------------
  // The ids one grid works on
  // ---------------------------------------------------------------------

  /**
   * The ids of the grid container, of the target (detail) container, of
   * the images captured under the target and of their captions.
   */
  datatype GridIds = GridIds(grid: string, target: string, images: seq<string>, captions: seq<string>)
  {
    /** Every id the grid looks up names an element of the page. */
    predicate ResolvesIn(els: Elements) {
      && |captions| == |images|
      && grid in els && target in els
      && (forall i :: 0 <= i < |images| ==> images[i] in els)
      && (forall i :: 0 <= i < |images| ==> captions[i] in els)
    }

    /**
     * The grid, the target, the images and the captions are different
     * elements; images may still share an id among themselves.
     */
    predicate Separate() {
      && |captions| == |images|
      && grid != target
      && grid !in images && target !in images
      && (forall i :: 0 <= i < |images| ==> captions[i] != grid && captions[i] != target && captions[i] !in images)
      && (forall i, j :: 0 <= i < j < |images| ==> captions[i] != captions[j])
    }

    /** One of the first `n` images or captions has id `k`. */
    predicate Touches(n: nat, k: string)
      requires n <= |images| && n <= |captions|
    {
      k in images[..n] || k in captions[..n]
    }
  }

  // ---------------------------------------------------------------------
  // The document after openImage and closeImage
  // ---------------------------------------------------------------------

  /** Iteration `i` of openImage's loop: show image i and its caption if it is the one, else hide both. */
  function OpenStep(els: Elements, ids: GridIds, imageId: string, i: nat): (r: Elements)
    requires i < |ids.images| && i < |ids.captions| && ids.images[i] in els && ids.captions[i] in els
    ensures r.Keys == els.Keys
    ensures r[ids.captions[i]].display == Visibility(ids.images[i] == imageId)
    ensures ids.images[i] != ids.captions[i] ==> r[ids.images[i]].display == Visibility(ids.images[i] == imageId)
  {
    var d := Visibility(ids.images[i] == imageId);
    var e := els[ids.images[i] := els[ids.images[i]].(display := d)];
    e[ids.captions[i] := e[ids.captions[i]].(display := d)]
  }

  /** The first `n` iterations of openImage's loop. */
  function OpenLoop(els: Elements, ids: GridIds, imageId: string, n: nat): (r: Elements)
    requires ids.ResolvesIn(els) && n <= |ids.images|
    ensures r.Keys == els.Keys
    decreases n
  {
    if n == 0 then els else OpenStep(OpenLoop(els, ids, imageId, n - 1), ids, imageId, n - 1)
  }

  /** The document after `openImage(imageId)`. */
  function AfterOpen(els: Elements, ids: GridIds, imageId: string): (r: Elements)
    requires ids.ResolvesIn(els)
    ensures r.Keys == els.Keys
  {
    var scanned := OpenLoop(Hidden(els, ids.grid), ids, imageId, |ids.images|);
    Shown(Toggled(scanned, ids.target, NO_DISPLAY), ids.target)
  }

  /** Iteration `i` of closeImage's loop: hide caption i, then image i. */
  function CloseStep(els: Elements, ids: GridIds, i: nat): (r: Elements)
    requires i < |ids.images| && i < |ids.captions| && ids.images[i] in els && ids.captions[i] in els
    ensures r.Keys == els.Keys
    ensures r[ids.images[i]].display == DISPLAY_NONE && r[ids.captions[i]].display == DISPLAY_NONE
  {
    var e := els[ids.captions[i] := els[ids.captions[i]].(display := DISPLAY_NONE)];
    e[ids.images[i] := e[ids.images[i]].(display := DISPLAY_NONE)]
  }

  /** The first `n` iterations of closeImage's loop. */
  function CloseLoop(els: Elements, ids: GridIds, n: nat): (r: Elements)
    requires ids.ResolvesIn(els) && n <= |ids.images|
    ensures r.Keys == els.Keys
    decreases n
  {
    if n == 0 then els else CloseStep(CloseLoop(els, ids, n - 1), ids, n - 1)
  }

  /** The document after `closeImage()`. */
  function AfterClose(els: Elements, ids: GridIds): (r: Elements)
    requires ids.ResolvesIn(els)
    ensures r.Keys == els.Keys
  {
    var scanned := CloseLoop(els, ids, |ids.images|);
    Shown(Toggled(Hidden(scanned, ids.target), ids.target, NO_DISPLAY), ids.grid)
  }

  /** The last index at which `id` occurs in `images`, if any. */
  function LastIndexOf(images: seq<string>, id: string): (r: Option<nat>)
    ensures r.Some? ==> r.value < |images| && images[r.value] == id
    ensures r.Some? ==> forall j :: r.value < j < |images| ==> images[j] != id
    ensures r.None? ==> forall j :: 0 <= j < |images| ==> images[j] != id
  {
    if images == [] then None
    else if images[|images| - 1] == id then Some(|images| - 1)
    else LastIndexOf(images[..|images| - 1], id)
  }

  /** openImage's index after its loop has seen the first `n` images: the last match among them, else `prev`. */
  function SelectedAfter(images: seq<string>, imageId: string, n: nat, prev: Option<nat>): Option<nat>
    requires n <= |images|
  {
    if n == 0 then prev
    else if images[n - 1] == imageId then Some(n - 1)
    else SelectedAfter(images, imageId, n - 1, prev)
  }

  /** The first `n` steps only look at the first `n` images. */
  lemma {:induction false} SelectedAfterPrefix(images: seq<string>, imageId: string, n: nat, prev: Option<nat>)
    requires n < |images|
    ensures SelectedAfter(images, imageId, n, prev) == SelectedAfter(images[..|images| - 1], imageId, n, prev)
    decreases n
  {
    if n > 0 {
      SelectedAfterPrefix(images, imageId, n - 1, prev);
    }
  }

  /** After the whole loop, the open index is the last image with the id, or unchanged when no image has it. */
  lemma {:induction false} SelectedAfterIsLastIndex(images: seq<string>, imageId: string, prev: Option<nat>)
    ensures SelectedAfter(images, imageId, |images|, prev) ==
      if LastIndexOf(images, imageId).Some? then LastIndexOf(images, imageId) else prev
    decreases |images|
  {
    if images != [] && images[|images| - 1] != imageId {
      var init := images[..|images| - 1];
      SelectedAfterIsLastIndex(init, imageId, prev);
      SelectedAfterPrefix(images, imageId, |images| - 1, prev);
    }
  }

  // ---------------------------------------------------------------------
  // The two views
  // ---------------------------------------------------------------------

  /** Grid view: the grid is shown, the target and every image and caption hidden. */
  predicate GridView(els: Elements, ids: GridIds)
    requires ids.ResolvesIn(els)
  {
    && els[ids.grid].display == DISPLAY_BLOCK
    && els[ids.target].display == DISPLAY_NONE
    && (forall i :: 0 <= i < |ids.images| ==> els[ids.images[i]].display == DISPLAY_NONE)
    && (forall i :: 0 <= i < |ids.images| ==> els[ids.captions[i]].display == DISPLAY_NONE)
  }

  /** Single-image view of image `k`: the grid is hidden, the target, image `k` and its caption shown, every other image and caption hidden. */
  predicate DetailView(els: Elements, ids: GridIds, k: nat)
    requires ids.ResolvesIn(els)
  {
    && els[ids.grid].display == DISPLAY_NONE
    && els[ids.target].display == DISPLAY_BLOCK
    && (forall i :: 0 <= i < |ids.images| ==> els[ids.images[i]].display == Visibility(i == k))
    && (forall i :: 0 <= i < |ids.images| ==> els[ids.captions[i]].display == Visibility(i == k))
  }

  /** Element `k` after iteration `i` of openImage's loop: image i and its caption get the same display. */
  lemma OpenStepAt(els: Elements, ids: GridIds, imageId: string, i: nat, k: string)
    requires i < |ids.images| && i < |ids.captions| && ids.images[i] in els && ids.captions[i] in els && k in els
    ensures OpenStep(els, ids, imageId, i)[k] ==
      if k == ids.images[i] || k == ids.captions[i] then els[k].(display := Visibility(ids.images[i] == imageId)) else els[k]
  {
  }

  /** What OpenLoopAt states about element `k` after `n` iterations. */
  predicate OpenedAt(els: Elements, ids: GridIds, imageId: string, n: nat, k: string, e: Element)
    requires n <= |ids.images| && n <= |ids.captions| && k in els
  {
    && e == els[k].(display := e.display)
    && (k in ids.images[..n] ==> e.display == Visibility(k == imageId))
    && (forall i :: 0 <= i < n && ids.captions[i] == k ==> e.display == Visibility(ids.images[i] == imageId))
    && (!ids.Touches(n, k) ==> e == els[k])
  }

  /** One more iteration of openImage's loop keeps element `k` as OpenLoopAt describes it. */
  lemma OpenLoopStepAt(els: Elements, p: Elements, q: Elements, ids: GridIds, imageId: string, n: nat, k: string)
    requires ids.ResolvesIn(els) && ids.Separate() && 0 < n <= |ids.images| && k in els
    requires p.Keys == els.Keys && q == OpenStep(p, ids, imageId, n - 1)
    requires OpenedAt(els, ids, imageId, n - 1, k, p[k])
    ensures OpenedAt(els, ids, imageId, n, k, q[k])
  {
    var last := n - 1;
    OpenStepAt(p, ids, imageId, last, k);
    TouchesStep(ids, n, k);
    assert ids.images[..n] == ids.images[..last] + [ids.images[last]];
    if k == ids.captions[last] {
      assert k !in ids.images;
    } else if k == ids.images[last] {
      assert forall i :: 0 <= i < n ==> ids.captions[i] != k;
    }
  }

  /** Element `k` after the first `n` iterations of openImage's loop. */
  lemma {:induction false} OpenLoopAt(els: Elements, ids: GridIds, imageId: string, n: nat, k: string)
    requires ids.ResolvesIn(els) && ids.Separate() && n <= |ids.images| && k in els
    ensures OpenedAt(els, ids, imageId, n, k, OpenLoop(els, ids, imageId, n)[k])
    decreases n
  {
    if n > 0 {
      OpenLoopAt(els, ids, imageId, n - 1, k);
      OpenLoopStepAt(els, OpenLoop(els, ids, imageId, n - 1), OpenLoop(els, ids, imageId, n), ids, imageId, n, k);
    }
  }

  /** After the first `n` iterations of openImage's loop, exactly the matching images among them and their captions are shown. */
  lemma OpenLoopEffect(els: Elements, ids: GridIds, imageId: string, n: nat)
    requires ids.ResolvesIn(els) && ids.Separate() && n <= |ids.images|
    ensures forall i :: 0 <= i < n ==>
      OpenLoop(els, ids, imageId, n)[ids.images[i]] == els[ids.images[i]].(display := Visibility(ids.images[i] == imageId))
    ensures forall i :: 0 <= i < n ==>
      OpenLoop(els, ids, imageId, n)[ids.captions[i]] == els[ids.captions[i]].(display := Visibility(ids.images[i] == imageId))
    ensures forall k :: k in els && !ids.Touches(n, k) ==> OpenLoop(els, ids, imageId, n)[k] == els[k]
  {
    forall i | 0 <= i < n
      ensures OpenLoop(els, ids, imageId, n)[ids.images[i]] == els[ids.images[i]].(display := Visibility(ids.images[i] == imageId))
      ensures OpenLoop(els, ids, imageId, n)[ids.captions[i]] == els[ids.captions[i]].(display := Visibility(ids.images[i] == imageId))
    {
      OpenLoopAt(els, ids, imageId, n, ids.images[i]);
      OpenLoopAt(els, ids, imageId, n, ids.captions[i]);
      assert ids.images[..n][i] == ids.images[i];
    }
    forall k | k in els && !ids.Touches(n, k) ensures OpenLoop(els, ids, imageId, n)[k] == els[k] {
      OpenLoopAt(els, ids, imageId, n, k);
    }
  }

  /**
   * After `openImage(imageId)`: the grid is hidden, the target shown with
   * "no-display" toggled, each image and its caption shown exactly when
   * the image's id is `imageId`, and every other element untouched.
   */
  lemma OpenImageView(els: Elements, ids: GridIds, imageId: string)
    requires ids.ResolvesIn(els) && ids.Separate()
    ensures var r := AfterOpen(els, ids, imageId);
      && r[ids.grid] == els[ids.grid].(display := DISPLAY_NONE)
      && r[ids.target].display == DISPLAY_BLOCK
      && (NO_DISPLAY in r[ids.target].classes <==> NO_DISPLAY !in els[ids.target].classes)
      && (forall c :: c != NO_DISPLAY ==> (c in r[ids.target].classes <==> c in els[ids.target].classes))
      && r[ids.target].imgIds == els[ids.target].imgIds
      && (forall i :: 0 <= i < |ids.images| ==>
            r[ids.images[i]] == els[ids.images[i]].(display := Visibility(ids.images[i] == imageId)))
      && (forall i :: 0 <= i < |ids.images| ==>
            r[ids.captions[i]] == els[ids.captions[i]].(display := Visibility(ids.images[i] == imageId)))
      && (forall k :: k in els && k != ids.grid && k != ids.target && !ids.Touches(|ids.images|, k) ==> r[k] == els[k])
  {
    var hidden := Hidden(els, ids.grid);
    OpenLoopEffect(hidden, ids, imageId, |ids.images|);
    var scanned := OpenLoop(hidden, ids, imageId, |ids.images|);
    assert !ids.Touches(|ids.images|, ids.grid) && !ids.Touches(|ids.images|, ids.target);
    assert scanned[ids.grid] == hidden[ids.grid] && scanned[ids.target] == els[ids.target];
  }

  /** Extending the scanned prefix by one index adds exactly that image and its caption. */
  lemma TouchesStep(ids: GridIds, n: nat, k: string)
    requires 0 < n <= |ids.images| && n <= |ids.captions|
    ensures ids.Touches(n, k) <==> ids.Touches(n - 1, k) || k == ids.images[n - 1] || k == ids.captions[n - 1]
  {
    assert ids.images[..n] == ids.images[..n - 1] + [ids.images[n - 1]];
    assert ids.captions[..n] == ids.captions[..n - 1] + [ids.captions[n - 1]];
  }

  /** Element `k` after iteration `i` of closeImage's loop. */
  lemma CloseStepAt(els: Elements, ids: GridIds, i: nat, k: string)
    requires i < |ids.images| && i < |ids.captions| && ids.images[i] in els && ids.captions[i] in els && k in els
    ensures CloseStep(els, ids, i)[k] ==
      if k == ids.images[i] || k == ids.captions[i] then els[k].(display := DISPLAY_NONE) else els[k]
  {
  }

  /** One more iteration of closeImage's loop keeps element `k` as CloseLoopAt describes it. */
  lemma CloseLoopStepAt(els: Elements, p: Elements, q: Elements, ids: GridIds, n: nat, k: string)
    requires ids.ResolvesIn(els) && 0 < n <= |ids.images| && k in els
    requires p.Keys == els.Keys && q == CloseStep(p, ids, n - 1)
    requires p[k] == if ids.Touches(n - 1, k) then els[k].(display := DISPLAY_NONE) else els[k]
    ensures q[k] == if ids.Touches(n, k) then els[k].(display := DISPLAY_NONE) else els[k]
  {
    CloseStepAt(p, ids, n - 1, k);
    TouchesStep(ids, n, k);
  }

  /** Element `k` after the first `n` iterations of closeImage's loop: hidden if the loop reached it, else untouched. */
  lemma {:induction false} CloseLoopAt(els: Elements, ids: GridIds, n: nat, k: string)
    requires ids.ResolvesIn(els) && n <= |ids.images| && k in els
    ensures CloseLoop(els, ids, n)[k] == if ids.Touches(n, k) then els[k].(display := DISPLAY_NONE) else els[k]
    decreases n
  {
    if n > 0 {
      CloseLoopAt(els, ids, n - 1, k);
      CloseLoopStepAt(els, CloseLoop(els, ids, n - 1), CloseLoop(els, ids, n), ids, n, k);
    }
  }

  /** After the first `n` iterations of closeImage's loop, those images and captions are hidden. */
  lemma CloseLoopEffect(els: Elements, ids: GridIds, n: nat)
    requires ids.ResolvesIn(els) && n <= |ids.images|
    ensures forall i :: 0 <= i < n ==> CloseLoop(els, ids, n)[ids.images[i]] == els[ids.images[i]].(display := DISPLAY_NONE)
    ensures forall i :: 0 <= i < n ==> CloseLoop(els, ids, n)[ids.captions[i]] == els[ids.captions[i]].(display := DISPLAY_NONE)
    ensures forall k :: k in els && !ids.Touches(n, k) ==> CloseLoop(els, ids, n)[k] == els[k]
  {
    forall i | 0 <= i < n
      ensures CloseLoop(els, ids, n)[ids.images[i]] == els[ids.images[i]].(display := DISPLAY_NONE)
      ensures CloseLoop(els, ids, n)[ids.captions[i]] == els[ids.captions[i]].(display := DISPLAY_NONE)
    {
      CloseLoopAt(els, ids, n, ids.images[i]);
      CloseLoopAt(els, ids, n, ids.captions[i]);
      assert ids.images[..n][i] == ids.images[i] && ids.captions[..n][i] == ids.captions[i];
    }
    forall k | k in els && !ids.Touches(n, k) ensures CloseLoop(els, ids, n)[k] == els[k] {
      CloseLoopAt(els, ids, n, k);
    }
  }

  /**
   * After `closeImage()`, from any state: grid view, with "no-display"
   * toggled on the target and every other element untouched.
   */
  lemma CloseImageView(els: Elements, ids: GridIds)
    requires ids.ResolvesIn(els) && ids.Separate()
    ensures var r := AfterClose(els, ids);
      && GridView(r, ids)
      && r[ids.grid] == els[ids.grid].(display := DISPLAY_BLOCK)
      && (NO_DISPLAY in r[ids.target].classes <==> NO_DISPLAY !in els[ids.target].classes)
      && (forall c :: c != NO_DISPLAY ==> (c in r[ids.target].classes <==> c in els[ids.target].classes))
      && r[ids.target].imgIds == els[ids.target].imgIds
      && (forall i :: 0 <= i < |ids.images| ==> r[ids.images[i]] == els[ids.images[i]].(display := DISPLAY_NONE))
      && (forall i :: 0 <= i < |ids.images| ==> r[ids.captions[i]] == els[ids.captions[i]].(display := DISPLAY_NONE))
      && (forall k :: k in els && k != ids.grid && k != ids.target && !ids.Touches(|ids.images|, k) ==> r[k] == els[k])
  {
    CloseLoopEffect(els, ids, |ids.images|);
    var scanned := CloseLoop(els, ids, |ids.images|);
    assert !ids.Touches(|ids.images|, ids.grid) && !ids.Touches(|ids.images|, ids.target);
    assert scanned[ids.target] == els[ids.target];
  }

  /** Opening the image at index `k` of a grid whose images have distinct ids gives the single-image view of `k`, and `k` becomes the open index. */
  lemma OpenSelectsImage(els: Elements, ids: GridIds, k: nat)
    requires ids.ResolvesIn(els) && ids.Separate() && k < |ids.images|
    requires forall i, j :: 0 <= i < j < |ids.images| ==> ids.images[i] != ids.images[j]
    ensures DetailView(AfterOpen(els, ids, ids.images[k]), ids, k)
    ensures LastIndexOf(ids.images, ids.images[k]) == Some(k)
  {
    OpenImageView(els, ids, ids.images[k]);
    var r := AfterOpen(els, ids, ids.images[k]);
    forall i | 0 <= i < |ids.images|
      ensures r[ids.images[i]].display == Visibility(i == k)
      ensures r[ids.captions[i]].display == Visibility(i == k)
    {
      assert (ids.images[i] == ids.images[k]) == (i == k);
    }
  }

  /** Opening an id that no image has hides every image and caption and leaves the open index alone. */
  lemma OpenWithoutMatch(els: Elements, ids: GridIds, imageId: string)
    requires ids.ResolvesIn(els) && ids.Separate() && imageId !in ids.images
    ensures var r := AfterOpen(els, ids, imageId);
      && r[ids.grid].display == DISPLAY_NONE
      && r[ids.target].display == DISPLAY_BLOCK
      && (forall i :: 0 <= i < |ids.images| ==> r[ids.images[i]].display == DISPLAY_NONE)
      && (forall i :: 0 <= i < |ids.images| ==> r[ids.captions[i]].display == DISPLAY_NONE)
    ensures LastIndexOf(ids.images, imageId) == None
  {
    OpenImageView(els, ids, imageId);
  }

  /** Two views that toggle "no-display" once each leave the target's classes as they were. */
  lemma ClassesRestored(before: set<string>, middle: set<string>, after: set<string>)
    requires NO_DISPLAY in middle <==> NO_DISPLAY !in before
    requires forall c :: c != NO_DISPLAY ==> (c in middle <==> c in before)
    requires NO_DISPLAY in after <==> NO_DISPLAY !in middle
    requires forall c :: c != NO_DISPLAY ==> (c in after <==> c in middle)
    ensures after == before
  {
    assert forall c :: c in after <==> c in before;
  }

  /** `closeImage()` after any `openImage(x)` gives grid view and restores the target's classes. */
  lemma OpenThenClose(els: Elements, ids: GridIds, x: string)
    requires ids.ResolvesIn(els) && ids.Separate()
    ensures GridView(AfterClose(AfterOpen(els, ids, x), ids), ids)
    ensures AfterClose(AfterOpen(els, ids, x), ids)[ids.target].classes == els[ids.target].classes
  {
    var afterOpen := AfterOpen(els, ids, x);
    OpenImageView(els, ids, x);
    CloseImageView(afterOpen, ids);
    ClassesRestored(els[ids.target].classes, afterOpen[ids.target].classes, AfterClose(afterOpen, ids)[ids.target].classes);
  }

  /**
   * Re-opening without closing: after `openImage(x); openImage(y)` only
   * `y`'s images and captions are shown, and the target's classes are
   * those it had before the first open.
   */
  lemma OpenThenOpen(els: Elements, ids: GridIds, x: string, y: string)
    requires ids.ResolvesIn(els) && ids.Separate()
    ensures var r := AfterOpen(AfterOpen(els, ids, x), ids, y);
      && r[ids.grid].display == DISPLAY_NONE
      && r[ids.target].display == DISPLAY_BLOCK
      && (forall i :: 0 <= i < |ids.images| ==> r[ids.images[i]].display == Visibility(ids.images[i] == y))
      && (forall i :: 0 <= i < |ids.images| ==> r[ids.captions[i]].display == Visibility(ids.images[i] == y))
      && r[ids.target].classes == els[ids.target].classes
  {
    var afterOpen := AfterOpen(els, ids, x);
    OpenImageView(els, ids, x);
    OpenImageView(afterOpen, ids, y);
    ClassesRestored(els[ids.target].classes, afterOpen[ids.target].classes, AfterOpen(afterOpen, ids, y)[ids.target].classes);
  }

  /** Two grid views of the same ids display an element alike, when the second leaves every element outside the grid alone. */
  lemma GridViewsAgree(a: Elements, b: Elements, ids: GridIds, k: string)
    requires ids.ResolvesIn(a) && ids.ResolvesIn(b) && GridView(a, ids) && GridView(b, ids) && k in a && a.Keys == b.Keys
    requires k != ids.grid && k != ids.target && !ids.Touches(|ids.images|, k) ==> b[k] == a[k]
    ensures b[k].display == a[k].display
  {
    if ids.Touches(|ids.images|, k) {
      var i :| 0 <= i < |ids.images| && (ids.images[i] == k || ids.captions[i] == k);
    }
  }

  /**
   * `closeImage(); closeImage()` leaves every element displayed as after a
   * single close, but "no-display" is toggled back on the target.
   */
  lemma CloseTwice(els: Elements, ids: GridIds)
    requires ids.ResolvesIn(els) && ids.Separate()
    ensures var once := AfterClose(els, ids);
      var twice := AfterClose(once, ids);
      && (forall k :: k in els ==> twice[k].display == once[k].display)
      && (NO_DISPLAY in twice[ids.target].classes <==> NO_DISPLAY !in once[ids.target].classes)
      && twice[ids.target].classes == els[ids.target].classes
  {
    var once := AfterClose(els, ids);
    var twice := AfterClose(once, ids);
    CloseImageView(els, ids);
    CloseImageView(once, ids);
    forall k | k in els ensures twice[k].display == once[k].display {
      GridViewsAgree(once, twice, ids, k);
    }
    ClassesRestored(els[ids.target].classes, once[ids.target].classes, twice[ids.target].classes);
  }

  // ---------------------------------------------------------------------
  // The grid
  // ---------------------------------------------------------------------

  class ImageGrid {
    const name: string
    const imageGridId: string
    const imageGridTargetId: string
    const imageGridImageCaptionId: string
    /** The ids of the `<img>` elements under the target, captured once by the constructor. */
    const images: seq<string>
    /** The caption ids `imageGridImageCaptionId.format(i)` for each image index `i`. */
    const captions: seq<string>
    const doc: Document
    var openImageIndex: Option<nat>

    /** The name and every id derived from it, as the constructor sets them. */
    predicate Named(n: string) {
      && name == n
      && imageGridId == GridId(n)
      && imageGridTargetId == TargetId(n)
      && imageGridImageCaptionId == CaptionTemplate(n)
      && captions == CaptionIds(CaptionTemplate(n), |images|)
    }

    function Ids(): GridIds {
      GridIds(imageGridId, imageGridTargetId, images, captions)
    }

    constructor (name: string, doc: Document)
      requires TargetId(name) in doc.elements
      ensures this.name == name && this.doc == doc
      ensures imageGridId == GridId(name) && imageGridTargetId == TargetId(name)
      ensures imageGridImageCaptionId == CaptionTemplate(name)
      ensures images == doc.elements[TargetId(name)].imgIds
      ensures captions == CaptionIds(CaptionTemplate(name), |images|)
      ensures openImageIndex == None
    {
      this.name := name;
      this.doc := doc;
      imageGridId := GridId(name);
      imageGridTargetId := TargetId(name);
      imageGridImageCaptionId := CaptionTemplate(name);
      images := doc.elements[TargetId(name)].imgIds;
      captions := CaptionIds(CaptionTemplate(name), |doc.elements[TargetId(name)].imgIds|);
      openImageIndex := None;
    }

    /**
     * Hide the grid, show only the image with id `imageId` and its caption,
     * show the target; the open index becomes the last image with that id.
     */
    method OpenImage(imageId: string)
      requires Ids().ResolvesIn(doc.elements)
      modifies this, doc
      ensures doc.elements == AfterOpen(old(doc.elements), Ids(), imageId)
      ensures openImageIndex == if LastIndexOf(images, imageId).Some? then LastIndexOf(images, imageId) else old(openImageIndex)
    {
      ghost var ids := Ids();
      ghost var initial := doc.elements;
      doc.Hide(imageGridId);
      ghost var start := doc.elements;
      assert start == Hidden(initial, ids.grid);
      var i := 0;
      while i < |images|
        invariant 0 <= i <= |images|
        invariant doc.elements == OpenLoop(start, ids, imageId, i)
        invariant openImageIndex == SelectedAfter(images, imageId, i, old(openImageIndex))
      {
        OpenImageAt(i, imageId);
        i := i + 1;
      }
      assert i == |ids.images|;
      SelectedAfterIsLastIndex(images, imageId, old(openImageIndex));
      ghost var scanned := doc.elements;
      doc.ToggleClass(imageGridTargetId, NO_DISPLAY);
      doc.Show(imageGridTargetId);
      assert doc.elements == Shown(Toggled(scanned, ids.target, NO_DISPLAY), ids.target);
      assert doc.elements == AfterOpen(initial, ids, imageId);
    }

    /** The body of openImage's loop for image `i`: show it and its caption and remember `i` if it is the one, else hide both. */
    method OpenImageAt(i: nat, imageId: string)
      requires i < |images| && i < |captions| && images[i] in doc.elements && captions[i] in doc.elements
      modifies this, doc
      ensures doc.elements == OpenStep(old(doc.elements), Ids(), imageId, i)
      ensures openImageIndex == if images[i] == imageId then Some(i) else old(openImageIndex)
    {
      var caption := captions[i];
      if images[i] == imageId {
        doc.Show(images[i]);
        doc.Show(caption);
        openImageIndex := Some(i);
      } else {
        doc.Hide(images[i]);
        doc.Hide(caption);
      }
    }

    /** Hide every image and caption and the target, toggle the target's class back, show the grid. */
    method CloseImage()
      requires Ids().ResolvesIn(doc.elements)
      modifies doc
      ensures doc.elements == AfterClose(old(doc.elements), Ids())
    {
      ghost var ids := Ids();
      ghost var start := doc.elements;
      assert start == old(doc.elements);
      var i := 0;
      while i < |images|
        invariant 0 <= i <= |images|
        invariant doc.elements == CloseLoop(start, ids, i)
        invariant doc.elements.Keys == start.Keys
      {
        var caption := captions[i];
        doc.Hide(caption);
        doc.Hide(images[i]);
        i := i + 1;
      }
      assert i == |ids.images|;
      ghost var scanned := doc.elements;
      doc.Hide(imageGridTargetId);
      doc.ToggleClass(imageGridTargetId, NO_DISPLAY);
      doc.Show(imageGridId);
      assert doc.elements == Shown(Toggled(Hidden(scanned, ids.target), ids.target, NO_DISPLAY), ids.grid);
      assert doc.elements == AfterClose(start, ids);
    }
  }

  // ---------------------------------------------------------------------
  // The registry
  // ---------------------------------------------------------------------

  datatype Error = CapacityExceeded(name: string, limit: nat)

  /** What `instance(name)` does, given the names already registered. */
  datatype Decision = Reuse | Refuse | Create

  function Decide(registered: set<string>, name: string): Decision {
    if name in registered then Reuse
    else if |registered| > IMAGE_GRID_LIMIT then Refuse
    else Create
  }

  /** The decisions for a series of `instance` calls, starting from the names already registered. */
  function Outcomes(registered: set<string>, names: seq<string>): (ds: seq<Decision>)
    ensures |ds| == |names|
    decreases |names|
  {
    if names == [] then []
    else
      var d := Decide(registered, names[0]);
      [d] + Outcomes(if d == Create then registered + {names[0]} else registered, names[1..])
  }

  /** The names registered after a series of `instance` calls. */
  function RegisteredAfter(registered: set<string>, names: seq<string>): set<string>
    decreases |names|
  {
    if names == [] then registered
    else
      var d := Decide(registered, names[0]);
      RegisteredAfter(if d == Create then registered + {names[0]} else registered, names[1..])
  }

  /** Each outcome is the decision `instance` makes for its name, given the names registered by the calls before it. */
  lemma {:induction false} OutcomeIsDecision(registered: set<string>, names: seq<string>, k: nat)
    requires k < |names|
    ensures Outcomes(registered, names)[k] == Decide(RegisteredAfter(registered, names[..k]), names[k])
    decreases |names|
  {
    var d := Decide(registered, names[0]);
    var next := if d == Create then registered + {names[0]} else registered;
    assert Outcomes(registered, names) == [d] + Outcomes(next, names[1..]);
    if k > 0 {
      OutcomeIsDecision(next, names[1..], k - 1);
      assert names[..k][1..] == names[1..][..k - 1];
      assert RegisteredAfter(registered, names[..k]) == RegisteredAfter(next, names[..k][1..]);
    } else {
      assert names[..0] == [];
    }
  }

  /**
   * A registry that starts with at most IMAGE_GRID_LIMIT + 1 names never
   * holds more, whatever names are asked for: `size > IMAGE_GRID_LIMIT`
   * lets the registry grow to exactly one past the limit.
   */
  lemma {:induction false} RegistryBounded(registered: set<string>, names: seq<string>)
    requires |registered| <= IMAGE_GRID_LIMIT + 1
    ensures registered <= RegisteredAfter(registered, names)
    ensures |RegisteredAfter(registered, names)| <= IMAGE_GRID_LIMIT + 1
    decreases |names|
  {
    if names != [] {
      var d := Decide(registered, names[0]);
      var next := if d == Create then registered + {names[0]} else registered;
      RegistryBounded(next, names[1..]);
    }
  }

  /**
   * Asking for new, distinct names: the k-th request creates a grid while
   * the registry holds at most IMAGE_GRID_LIMIT names before it, and is
   * refused from then on.
   */
  lemma {:induction false} NewNamesOutcomes(registered: set<string>, names: seq<string>, k: nat)
    requires forall i, j :: 0 <= i < j < |names| ==> names[i] != names[j]
    requires forall i :: 0 <= i < |names| ==> names[i] !in registered
    requires k < |names|
    ensures Outcomes(registered, names)[k] == if |registered| + k <= IMAGE_GRID_LIMIT then Create else Refuse
    decreases |names|
  {
    var d := Decide(registered, names[0]);
    var next := if d == Create then registered + {names[0]} else registered;
    assert Outcomes(registered, names) == [d] + Outcomes(next, names[1..]);
    if k > 0 {
      var rest := names[1..];
      forall i | 0 <= i < |rest| ensures rest[i] !in next {
        assert rest[i] == names[i + 1];
      }
      NewNamesOutcomes(next, rest, k - 1);
    }
  }

  /** From an empty registry, 27 distinct names: the 26th is still created, the 27th refused. */
  lemma TwentySixGrids(names: seq<string>)
    requires |names| == 27
    requires forall i, j :: 0 <= i < j < |names| ==> names[i] != names[j]
    ensures Outcomes({}, names)[25] == Create
    ensures Outcomes({}, names)[26] == Refuse
  {
    NewNamesOutcomes({}, names, 25);
    NewNamesOutcomes({}, names, 26);
  }

  /** The map from name to grid, with the cap on how many grids it makes. */
  class Registry {
    var instances: map<string, ImageGrid>
    const doc: Document

    ghost predicate Valid()
      reads this
    {
      && |instances| <= IMAGE_GRID_LIMIT + 1
      && forall n :: n in instances ==> instances[n].Named(n) && instances[n].doc == doc
    }

    constructor (doc: Document)
      ensures Valid() && instances == map[] && this.doc == doc
    {
      instances := map[];
      this.doc := doc;
    }

    /**
     * `ImageGrid.instance(name)`: the registered grid, or a failure when the
     * registry already holds more than IMAGE_GRID_LIMIT grids, or a new grid
     * that is registered under `name`.
     */
    method Instance(name: string) returns (r: Result<ImageGrid, Error>)
      requires Valid()
      requires Decide(instances.Keys, name) == Create ==> TargetId(name) in doc.elements
      modifies this
      ensures Valid()
      ensures Decide(old(instances).Keys, name) == Reuse ==>
        r == Success(old(instances)[name]) && instances == old(instances)
      ensures Decide(old(instances).Keys, name) == Refuse ==>
        r == Failure(CapacityExceeded(name, IMAGE_GRID_LIMIT)) && instances == old(instances)
      ensures Decide(old(instances).Keys, name) == Create ==>
        && r.Success? && fresh(r.value)
        && instances == old(instances)[name := r.value]
        && |instances| == |old(instances)| + 1
        && r.value.Named(name) && r.value.doc == doc && r.value.openImageIndex == None
        && r.value.images == doc.elements[TargetId(name)].imgIds
      ensures r.Success? ==> name in instances && instances[name] == r.value
    {
      if name in instances {
        return Success(instances[name]);
      }
      if |instances| > IMAGE_GRID_LIMIT {
        return Failure(CapacityExceeded(name, IMAGE_GRID_LIMIT));
      }
      var grid := new ImageGrid(name, doc);
      instances := instances[name := grid];
      r := Success(grid);
    }
  }
}
