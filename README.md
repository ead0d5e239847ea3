# ImageGrid controller, modelled in Dafny

This project models the Yummo ImageGrid controller. An ImageGrid is a named widget with two views:
- **Grid view** shows a grid of thumbnails (the element `ig-<name>`).
- **Single-image view** hides the grid and shows a target container (`ig-target-<name>`) holding one enlarged image and its caption (`<name>-caption-<i>`).

A static registry hands out one grid per name, up to a limit.

The model also covers the small helpers of the `Utils` module that the controller relies on:
- the `{n}` template substitution `String.prototype.format`;
- the `asString` conversion;
- the DOM updates `hide`, `show` and `toggleClass`.

The files:

- `wrappers.dfy`: module `Wrappers`, with `Option` and `Result`.
- `utils.dfy`: module `Utils`. `Format` is one left-to-right pass of `replace(/{(\d+)}/g, …)` over a template with a sequence of argument values. It comes with lemmas that characterise it:
  - a defined argument is substituted, and its text is not rescanned;
  - any other placeholder is kept as written;
  - text without a placeholder passes through unchanged.

  This file also holds `AsString`, and the decimal numerals that name argument slots. For integers of magnitude up to 2^53 these numerals are also what `Number.prototype.toString` writes.
- `dom.dfy`: module `Dom`. The page is a map from element id to the element's state: its inline `display`, its class set, and the ids of the `<img>` elements beneath it.
  - `Hidden`, `Shown` and `Toggled` give the effect of `hide`, `show` and `toggleClass` on that map.
  - The class `Document` holds the map and updates it in place with the methods `Hide`, `Show` and `ToggleClass`.
- `imagegrid.dfy`: module `ImageGrids`.
  - The class `ImageGrid` holds the derived ids, the image ids captured at construction and `openImageIndex`. Its methods `OpenImage` and `CloseImage` run the source's loops. Each is proved equal to a specification function (`AfterOpen`, `AfterClose`) that replays the same writes.
  - Lemmas about those functions state the views reached and what happens when operations are composed.
  - The class `Registry` holds the name→grid map. Its method `Instance` reuses, refuses or creates a grid.
  - The pure functions `Decide`, `Outcomes` and `RegisteredAfter` describe a series of `instance` calls.

Four behaviours of the code are worth stating plainly:
- **The registry limit.** The comment at `imagegrid.js:31` calls `IMAGE_GRID_LIMIT` the maximum number of grids. The test at line 45 is `size > IMAGE_GRID_LIMIT`, so the registry holds up to 26 grids (`RegistryBounded`, `TwentySixGrids`). The model follows the code.
- **openImage with no match.** When no image has the requested id, `openImage` assigns nothing to `openImageIndex`, so it keeps its previous value (`ImageGrid.OpenImage`, `SelectedAfterIsLastIndex`).
- **Ids of different grids.** A grid's own two ids always differ (`DerivedIds`), but the container of a grid named "target-x" has the id "ig-target-x", which is the target of the grid named "x" (`ContainerMeetsTarget`). Two such grids on one page would share an element; the model takes the ids as given.
- **closeImage and the index.** `closeImage` never assigns `openImageIndex`: `CloseImage` modifies only the document.

## Model

| member | source | states |
|---|---|---|
| Utils.ToString | assets/js/yummo/utils/utils.js:20 | the language's string conversion, which `replace` applies to a replacer's result: "undefined" for `undefined`, "null" for `null`, and for other values the same text their `toString()` gives (a minus sign before negative numbers, the decimal numeral of an integer, a string's own text) |
| Utils.Format | assets/js/yummo/utils/utils.js:17-22 | `template.format(...args)` as one left-to-right pass of `replace(/{(\d+)}/g, …)`; what it promises is stated by the lemmas `FormatSubstitutes`, `FormatKeeps`, `FormatPlainText`, `FormatWithoutArguments` and `FormatPlainPrefix` |
| Utils.SlotIndex | assets/js/yummo/utils/utils.js:20 | the argument slot that a placeholder's digits name when used as the property key `args[index]`: the number they denote, or none for a numeral with a leading zero; `SlotIndexIsDecimal` states it |
| Utils.Replacement | assets/js/yummo/utils/utils.js:20 | the replacer's result for a placeholder: the text of the argument its slot names when that argument is defined, otherwise the placeholder itself |
| Utils.AsString | assets/js/yummo/utils/utils.js:69-75 | `null` and `undefined` give the empty string; any other value gives its `toString()` text |
| Utils.AsStringAgreesWithToString | assets/js/yummo/utils/utils.js:69-75 | `asString(v)` equals the language's own string conversion of `v` exactly when `v` is neither `null` nor `undefined` |
| Utils.PlaceholderAt | assets/js/yummo/utils/utils.js:19 | the regex `{(\d+)}` matches at the start of a text exactly when some prefix is a brace, one or more digits and a closing brace; that prefix is unique, and the result gives its digit count |
| Utils.SlotIndexIsDecimal | assets/js/yummo/utils/utils.js:19-20 | a placeholder's digits name argument `n` exactly when they are the canonical decimal numeral of `n` (so `{01}` names no argument) |
| Utils.FormatSubstitutes | assets/js/yummo/utils/utils.js:17-22 | `{n}` whose argument `n` is defined becomes that argument's text; the rest of the template is formatted on its own, so inserted text is never rescanned |
| Utils.FormatKeeps | assets/js/yummo/utils/utils.js:20 | a placeholder naming no defined argument (out of range, `undefined`, or a leading-zero numeral) is kept verbatim |
| Utils.FormatWithoutArguments | assets/js/yummo/utils/utils.js:17-22 | with every argument undefined (or none at all), `format` returns its template unchanged |
| Utils.FormatPlainText | assets/js/yummo/utils/utils.js:19 | a template containing no `{digits}` pattern is returned unchanged |
| Utils.FormatPlainPrefix | assets/js/yummo/utils/utils.js:19 | placeholder-free text in front of a template passes through, when the rest cannot complete a pattern begun in it |
| Dom.Hidden | assets/js/yummo/utils/utils.js:146-148 | `hide` sets that element's display to "none" and changes no other element, and none of its other state |
| Dom.Shown | assets/js/yummo/utils/utils.js:154-156 | `show` sets that element's display to "block" and changes no other element, and none of its other state |
| Dom.Toggled | assets/js/yummo/utils/utils.js:163-165 | `toggleClass` inverts the token's membership in the element's class set and leaves every other token, the display and every other element alone |
| Dom.HideIdempotent | assets/js/yummo/utils/utils.js:146-148 | hiding twice is hiding once |
| Dom.ShowIdempotent | assets/js/yummo/utils/utils.js:154-156 | showing twice is showing once |
| Dom.ToggleTwice | assets/js/yummo/utils/utils.js:163-165 | toggling the same token twice restores the document |
| Dom.Document.Hide | assets/js/yummo/utils/utils.js:146-148 | the in-place update of the page is `Hidden` of the old page |
| Dom.Document.Show | assets/js/yummo/utils/utils.js:154-156 | the in-place update of the page is `Shown` of the old page |
| Dom.Document.ToggleClass | assets/js/yummo/utils/utils.js:163-165 | the in-place update of the page is `Toggled` of the old page |
| ImageGrids.GridId | assets/js/yummo/imagegrid/imagegrid.js:10 | the grid container's id is "ig-" followed by the name; `DerivedIds` states what that guarantees |
| ImageGrids.TargetId | assets/js/yummo/imagegrid/imagegrid.js:12 | the target container's id is "ig-target-" followed by the name |
| ImageGrids.CaptionTemplate | assets/js/yummo/imagegrid/imagegrid.js:14 | the caption template is the name followed by "-caption-{0}"; `CaptionIdIsNumbered` gives the ids it formats to |
| ImageGrids.DerivedIds | assets/js/yummo/imagegrid/imagegrid.js:10-12 | a grid's container and target ids differ, and two grids share a container id, or a target id, exactly when they have the same name |
| ImageGrids.CaptionIds | assets/js/yummo/imagegrid/imagegrid.js:71 | the ids `imageGridImageCaptionId.format(i)` for every image index `i`, one per image (also looked up at lines 75 and 91) |
| ImageGrids.ContainerMeetsTarget | assets/js/yummo/imagegrid/imagegrid.js:10-12 | the container id of a grid named "target-" + n equals the target id of the grid named n |
| ImageGrids.CaptionIdIsNumbered | assets/js/yummo/imagegrid/imagegrid.js:71 | for a name without a `{digits}` pattern, `imageGridImageCaptionId.format(i)` is the name, "-caption-" and the decimal numeral of `i` |
| ImageGrids.SecondCaption | assets/js/yummo/imagegrid/imagegrid.js:71 | for such a name (for example "vacation"), the caption of image 1 is the name followed by "-caption-1" |
| ImageGrids.CaptionIdsDistinct | assets/js/yummo/imagegrid/imagegrid.js:71 | for such a name, different image indices have different caption ids |
| ImageGrids.OpenStep | assets/js/yummo/imagegrid/imagegrid.js:69-76 | one iteration of openImage's loop: image `i` and its caption are shown when image `i` has the requested id and hidden otherwise; the set of element ids is unchanged |
| ImageGrids.CloseStep | assets/js/yummo/imagegrid/imagegrid.js:91-92 | one iteration of closeImage's loop hides caption `i` and image `i`; the set of element ids is unchanged |
| ImageGrids.LastIndexOf | assets/js/yummo/imagegrid/imagegrid.js:68-73 | the result is an index holding the id, and no later index holds it; no result means no index holds it |
| ImageGrids.SelectedAfterIsLastIndex | assets/js/yummo/imagegrid/imagegrid.js:68-73 | after the whole scan, the index recorded by openImage is the last image with the requested id, or the previous index when no image has it |
| ImageGrids.OpenLoop | assets/js/yummo/imagegrid/imagegrid.js:68-77 | the page after the first `n` iterations of openImage's loop, one `OpenStep` per index in order; the page keeps its set of elements |
| ImageGrids.SelectedAfter | assets/js/yummo/imagegrid/imagegrid.js:68-73 | `openImageIndex` after the loop has seen the first `n` images: the last of them whose id matches, else the value before the loop; `SelectedAfterIsLastIndex` states it |
| ImageGrids.OpenLoopAt | assets/js/yummo/imagegrid/imagegrid.js:68-77 | after `n` iterations, any element among the first `n` images and captions differs from before only in its display, which matches its image's id; any other element is untouched |
| ImageGrids.OpenLoopEffect | assets/js/yummo/imagegrid/imagegrid.js:68-77 | after `n` iterations, each of the first `n` images and captions is shown exactly when the image has the requested id and otherwise keeps its state, and every other element is untouched |
| ImageGrids.AfterOpen | assets/js/yummo/imagegrid/imagegrid.js:64-81 | the page after `openImage(imageId)`: hide the grid, run the loop's steps for every image, toggle "no-display" on the target and show it; the page keeps its set of elements |
| ImageGrids.OpenImageView | assets/js/yummo/imagegrid/imagegrid.js:64-81 | after `openImage(id)`: grid hidden; target shown with "no-display" toggled and its images kept; each image and its caption shown exactly when the image's id is `id`; these elements change only in the way stated, and every other element is untouched |
| ImageGrids.CloseLoop | assets/js/yummo/imagegrid/imagegrid.js:90-93 | the page after the first `n` iterations of closeImage's loop, one `CloseStep` per index in order; the page keeps its set of elements |
| ImageGrids.CloseLoopAt | assets/js/yummo/imagegrid/imagegrid.js:90-93 | after `n` iterations, an element among the first `n` images and captions is hidden and otherwise unchanged; any other element is untouched |
| ImageGrids.CloseLoopEffect | assets/js/yummo/imagegrid/imagegrid.js:90-93 | after `n` iterations, the first `n` images and captions are hidden and otherwise keep their state, and every other element is untouched |
| ImageGrids.AfterClose | assets/js/yummo/imagegrid/imagegrid.js:88-99 | the page after `closeImage()`: run the loop's steps for every image, hide the target, toggle "no-display" on it, show the grid; the page keeps its set of elements |
| ImageGrids.CloseImageView | assets/js/yummo/imagegrid/imagegrid.js:88-99 | after `closeImage()`, from any state: grid shown, target and every image and caption hidden, "no-display" toggled on the target and its images kept; these elements change only in the way stated, and every other element is untouched |
| ImageGrids.OpenSelectsImage | assets/js/yummo/imagegrid/imagegrid.js:64-81 | with distinct image ids, opening image `k` gives the single-image view of `k`, and `k` is the index openImage records |
| ImageGrids.OpenWithoutMatch | assets/js/yummo/imagegrid/imagegrid.js:64-81 | opening an id no image has hides the grid, every image and every caption, and shows the target; no index is recorded |
| ImageGrids.OpenThenClose | assets/js/yummo/imagegrid/imagegrid.js:64-99 | `openImage(x); closeImage()` reaches grid view for any `x` and restores the target's class set |
| ImageGrids.OpenThenOpen | assets/js/yummo/imagegrid/imagegrid.js:64-81 | `openImage(x); openImage(y)` shows only `y`'s images and captions, and the target's class set is what it was before the first open |
| ImageGrids.CloseTwice | assets/js/yummo/imagegrid/imagegrid.js:88-99 | `closeImage(); closeImage()` displays every element as a single close does, but toggles "no-display" back to its original membership |
| ImageGrids.ImageGrid.constructor | assets/js/yummo/imagegrid/imagegrid.js:7-21 | the grid id is "ig-"+name, the target id "ig-target-"+name and the caption template name+"-caption-{0}"; the image list is the target's `<img>` ids, captured once; no image is open |
| ImageGrids.ImageGrid.OpenImage | assets/js/yummo/imagegrid/imagegrid.js:64-81 | the page afterwards is `AfterOpen` of the page before; `openImageIndex` is the last image with the id, or is unchanged when none has it |
| ImageGrids.ImageGrid.OpenImageAt | assets/js/yummo/imagegrid/imagegrid.js:69-76 | the loop body: the page becomes `OpenStep` of the old page, and `i` is recorded exactly when image `i` has the id |
| ImageGrids.ImageGrid.CloseImage | assets/js/yummo/imagegrid/imagegrid.js:88-99 | the page afterwards is `AfterClose` of the page before; nothing else changes (`openImageIndex` included) |
| ImageGrids.Registry.constructor | assets/js/yummo/imagegrid/imagegrid.js:27 | the registry starts empty |
| ImageGrids.Registry.Instance | assets/js/yummo/imagegrid/imagegrid.js:39-56 | a registered name returns its stored grid and leaves the registry unchanged; when the registry holds more than 25 grids, a new name fails with `CapacityExceeded` and changes nothing; otherwise a fresh grid is stored under the name, the size grows by one and every other entry is kept; every registered grid carries its name's derived ids and caption ids, so a grid obtained here meets the preconditions of `OpenImage` and `CloseImage` once its page elements exist |
| ImageGrids.Decide | assets/js/yummo/imagegrid/imagegrid.js:41-55 | what `instance(name)` does given the registered names: reuse a registered name, else refuse when more than 25 grids are registered, else create |
| ImageGrids.Outcomes | assets/js/yummo/imagegrid/imagegrid.js:39-56 | one decision per call in a series of `instance` calls |
| ImageGrids.OutcomeIsDecision | assets/js/yummo/imagegrid/imagegrid.js:39-56 | the decision for each call in a series is `Decide` applied to its name and the names registered by the calls before it |
| ImageGrids.RegisteredAfter | assets/js/yummo/imagegrid/imagegrid.js:41-55 | the names registered after a series of `instance` calls: a name is added exactly when `Decide` creates it, and nothing is ever removed |
| ImageGrids.RegistryBounded | assets/js/yummo/imagegrid/imagegrid.js:45-55 | whatever names are requested, the registry only grows and never holds more than IMAGE_GRID_LIMIT + 1 = 26 grids |
| ImageGrids.NewNamesOutcomes | assets/js/yummo/imagegrid/imagegrid.js:41-55 | for distinct new names, the k-th request creates a grid while at most 25 grids precede it, and is refused from then on |
| ImageGrids.TwentySixGrids | assets/js/yummo/imagegrid/imagegrid.js:45 | from an empty registry, the 26th distinct name is still created and the 27th is refused |

## Left out

- Logging: `log`, `warn`, `error` and the `enableLog` flag write to the console. Nothing in the model depends on them. The thrown message string of `instance` becomes the value `CapacityExceeded(name, limit)`.
- The DOM helpers the grid never calls (`getByClass`, `addClass`, `removeClass`, `setOpacity`, `innerHTML`, `selectAll`): they are pass-throughs to browser APIs.
- Browser lookup semantics: `getById` is a lookup in the id→element map, and `getImgElements` is the element's list of `<img>` ids. The code never checks for a missing element, so "every id the grid uses names an element" (`GridIds.ResolvesIn`) is a precondition.
- Elements are identified by their id. Two `<img>` elements sharing an id are one element in the model.
- The collection `getImgElements` returns is live in a browser, but it is read as a list fixed at construction.
- The order of tokens in a class list is not modelled: it is a set.
- `Utils.Value.Num` holds integers only. Floating-point arguments to `format` are not modelled.
- Dom.Toggled: accepts any token, as does `Dom.Document.ToggleClass`. The browser's `classList.toggle` throws a `SyntaxError` for the empty token and an `InvalidCharacterError` for a token containing ASCII whitespace; the model adds such a token to the set instead. The controller only toggles "no-display", which the browser accepts.
- Dom.Document.ToggleClass: accepts any token, like `Dom.Toggled`; the browser's `classList.toggle` throws a `SyntaxError` for the empty token and an `InvalidCharacterError` for a token containing ASCII whitespace, while the method adds such a token to the class set. The controller only toggles "no-display", which the browser accepts.
- Utils.ToString: writes every integer as its exact decimal numeral. JavaScript agrees only up to 2^53 in magnitude: larger numbers are first rounded to a double (2^60 prints as "1152921504606847000"), and from 10^21 on they are written in exponent form ("1e+21"). The model has no floating-point numbers. The controller only formats image indices, which stay far below that bound.
- The CSS meaning of "no-display" is not modelled. Only its membership in the target's class set is.
- The loop lemmas for openImage (`OpenLoopStepAt`, `OpenLoopAt`, `OpenLoopEffect`) and the view lemmas (`OpenImageView`, `CloseImageView`, `OpenThenClose`, `OpenThenOpen`, `CloseTwice`, `OpenSelectsImage`, `OpenWithoutMatch`) assume `GridIds.Separate`: the grid, the target, the images and the captions are distinct elements, and caption ids are pairwise distinct. The methods themselves are proved without that assumption.
- `closeImage` looks the grid up again by id rather than using the cached reference. In the map model both are the same element.
- The module wiring is not modelled: the immediately-invoked function wrappers, the exported `ImageGrids` object and the patching of `String.prototype`.
- `ImageGrids.ImageGrid.constructor` computes every caption id `imageGridImageCaptionId.format(i)` once, into `captions`. The source formats the id inside each loop iteration; `format` is pure, so the ids are the same.
- `ImageGrids.ImageGrid.OpenImage`: its loop body is the separate method `OpenImageAt`, which runs the same statements.
- `ImageGrids.Registry.Instance` requires the target element of a newly created grid to exist, since the constructor reads its images without a null check.
