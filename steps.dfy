/** The product page as a value, and what each of the script's functions makes of it
    (assets/pdp-init.js). The class in module Page performs these steps in place; the
    lemmas here say what the steps show the shopper. */
module Steps {
  import opened Common
  import opened Overlay
  import opened Catalog
  import opened Picker

  /** One `{option, value}` entry handed to `window.frameUp_setVirtualOptionValues`. */
  datatype VirtualOption = VirtualOption(option: string, value: string)

  /** The hook argument for a complete selection (line 88): frame first, then size. */
  function HookArgument(size: string, frame: string): seq<VirtualOption>
  {
    [VirtualOption("Frame", frame), VirtualOption("Size", size)]
  }

  /** What the page gets from its host and never changes: `window.ABSTRACT_VARIANTS`,
      JSON.parse, whether the add-to-cart submit button exists, and whether
      `window.frameUp_setVirtualOptionValues` is a function. */
  datatype Host = Host(catalog: seq<Variant>, parse: string -> Parsed, hasAddToCart: bool, hasHook: bool)

  /** The form sinks `updateSkuPicker` writes; the gallery also writes the hidden id and
      the price text. */
  datatype Form = Form(
    variantId: string,                    // #sku-variant-id
    variantIdInputs: seq<string>,         // input[ref="abstractVariantId"]
    sizeInputs: seq<string>,              // input[ref="sizeOption"]
    frameInputs: seq<string>,             // input[ref="frameOption"]
    lineItemSize: string,                 // #line-item-size-prop
    lineItemFrame: string,                // #line-item-frame-prop
    addToCartDisabled: bool,              // the submit button's `disabled`
    priceText: string)                    // #sku-price

  /** Everything the script reads or writes on the page. */
  datatype PageState = PageState(
    sizeButtons: seq<Button>,             // #sku-size-picker .option-button
    frameButtons: seq<Button>,            // #sku-frame-picker .option-button
    form: Form,
    containers: seq<Container>,           // .mockup-container
    selectedVariant: Option<Variant>,     // window.SELECTED_ABSTRACT_VARIANT
    dispatched: seq<Option<Variant>>,     // details of the abstractVariantChange events so far
    hookCalls: seq<seq<VirtualOption>>,   // arguments of the hook calls so far
    listening: bool)                      // click listeners attached
  {
    function Buttons(g: Group): seq<Button>
    {
      match g
      case Size => sizeButtons
      case Frame => frameButtons
    }

    /** getSelectedOption (lines 105-108); lines 2-3 and 53-57 read the same. */
    function Selection(g: Group): Option<string>
    {
      SelectedValue(Buttons(g))
    }

    function WithButtons(g: Group, buttons: seq<Button>): PageState
    {
      match g
      case Size => this.(sizeButtons := buttons)
      case Frame => this.(frameButtons := buttons)
    }
  }

  /** A list of `n` inputs all holding `x`. */
  function Filled(n: nat, x: string): (r: seq<string>)
    ensures |r| == n && forall k :: 0 <= k < n ==> r[k] == x
  {
    seq(n, _ => x)
  }

  /** syncHorizonVariantInput (lines 40-50). `x || ''` is `x` for every string. */
  function Sync(f: Form, id: string, size: string, frame: string): Form
  {
    f.(variantIdInputs := Filled(|f.variantIdInputs|, id),
       sizeInputs := Filled(|f.sizeInputs|, size),
       frameInputs := Filled(|f.frameInputs|, frame))
  }

  /** The sinks `updateSkuPicker` writes in each of its three states: lines 60-63, lines
      72-78 and lines 80-84. A purchasable record is synced with its own size and frame,
      which equal the selection it was found by. */
  function ShowView(h: Host, f: Form, view: SkuView): Form
  {
    match view
    case Purchasable(v) =>
      Sync(f, v.id, v.size, v.frame).(
        variantId := v.id,
        lineItemSize := v.size,
        lineItemFrame := v.frame,
        addToCartDisabled := if h.hasAddToCart then false else f.addToCartDisabled,
        priceText := PriceLabel(view))
    case _ =>
      f.(variantId := "",
         addToCartDisabled := if h.hasAddToCart then true else f.addToCartDisabled,
         priceText := PriceLabel(view))
  }

  /** updateSkuPicker (lines 52-90). */
  function SkuStep(h: Host, s: PageState): PageState
  {
    var size, frame := s.Selection(Size), s.Selection(Frame);
    if !Chosen(size) || !Chosen(frame) then s.(form := ShowView(h, s.form, SelectOptions))
    else
      var m := MatchVariant(h.catalog, size, frame);
      s.(selectedVariant := m,
         dispatched := s.dispatched + [m],
         form := ShowView(h, s.form, if m.Some? && m.value.available then Purchasable(m.value) else Unavailable),
         hookCalls := if h.hasHook then s.hookCalls + [HookArgument(size.value, frame.value)] else s.hookCalls)
  }

  /** updateOptionAvailability (lines 1-38): frames flagged against the active size, then
      sizes against the active frame. */
  function AvailabilityStep(h: Host, s: PageState): PageState
  {
    var size, frame := s.Selection(Size), s.Selection(Frame);
    s.(frameButtons := MarkAll(s.frameButtons, Reachable(h.catalog, Frame, size)),
       sizeButtons := MarkAll(s.sizeButtons, Reachable(h.catalog, Size, frame)))
  }

  /** A page and whether the step ended by throwing. */
  datatype Outcome = Outcome(state: PageState, threw: bool)

  /** updateMockGalleryDOM (lines 129-170). A null configuration throws at line 135, before
      any container is touched. */
  function GalleryDom(h: Host, s: PageState, variant: Option<Variant>): Outcome
  {
    if variant.None? then Outcome(s, false)
    else
      match Decode(variant.value.mockConfig, h.parse)
      case Err(_) => Outcome(s, true)
      case Ok(cfg) => Outcome(s.(containers := RefreshAll(s.containers, OverlayUrl(cfg), PlacementOf(cfg))), false)
  }

  /** updateMockGallery (lines 110-128). The selection is not checked for emptiness: any
      record whose size and frame equal the active values is shown, and it overwrites the
      hidden id and the price text. */
  function GalleryStep(h: Host, s: PageState): Outcome
  {
    var m := MatchVariant(h.catalog, s.Selection(Size), s.Selection(Frame));
    var t := s.(selectedVariant := m);
    if m.None? then Outcome(t, false)
    else GalleryDom(h, t.(form := t.form.(variantId := m.value.id, priceText := m.value.priceFormatted)), m)
  }

  /** Lines 99-101 and 200-202: `updateSkuPicker`, `updateOptionAvailability`,
      `updateMockGallery`, in that order. */
  function Refresh(h: Host, s: PageState): Outcome
  {
    GalleryStep(h, AvailabilityStep(h, SkuStep(h, s)))
  }

  /** handleOptionClick (lines 92-102) on the `i`-th button of group `g`. */
  function Click(h: Host, s: PageState, g: Group, i: nat): Outcome
    requires i < |s.Buttons(g)|
  {
    Refresh(h, s.WithButtons(g, ActivateOnly(s.Buttons(g), i)))
  }

  /** Lines 184-197: the buttons carrying the record's size and frame become active. */
  function ActivateRecord(s: PageState, v: Variant): PageState
  {
    s.(sizeButtons := ActivateMatching(s.sizeButtons, v.size),
       frameButtons := ActivateMatching(s.frameButtons, v.frame))
  }

  /** The DOMContentLoaded handler (lines 171-209) once the cheapest record is known:
      nothing is activated or refreshed without one, and the listeners are attached unless
      the refresh threw. */
  function Boot(h: Host, s: PageState, cheapest: Option<nat>): Outcome
    requires cheapest.Some? ==> cheapest.value < |h.catalog|
  {
    if cheapest.None? then Outcome(s.(listening := true), false)
    else
      var r := Refresh(h, ActivateRecord(s, h.catalog[cheapest.value]));
      Outcome(r.state.(listening := !r.threw), r.threw)
  }

  // ----- What the steps show -----

  /** The branch `updateSkuPicker` takes is the three-way projection of the selection. */
  lemma SkuStepProjects(h: Host, s: PageState)
    ensures SkuStep(h, s).form == ShowView(h, s.form, ProjectSku(h.catalog, s.Selection(Size), s.Selection(Frame)))
  {
  }

  /** What each of the three states shows: the price label, the hidden id and the button
      state; a purchasable record also fills every synced input and the line items with its
      id, size and frame, while the other two states leave them alone. */
  lemma ShowViewShows(h: Host, f: Form, view: SkuView)
    ensures var g := ShowView(h, f, view);
            && g.priceText == PriceLabel(view)
            && g.variantId == (if view.Purchasable? then view.variant.id else "")
            && g.addToCartDisabled == (if h.hasAddToCart then !view.Purchasable? else f.addToCartDisabled)
            && (view.Purchasable? ==>
                  && g.variantIdInputs == Filled(|f.variantIdInputs|, view.variant.id)
                  && g.sizeInputs == Filled(|f.sizeInputs|, view.variant.size)
                  && g.frameInputs == Filled(|f.frameInputs|, view.variant.frame)
                  && g.lineItemSize == view.variant.size && g.lineItemFrame == view.variant.frame)
            && (!view.Purchasable? ==>
                  && g.variantIdInputs == f.variantIdInputs && g.sizeInputs == f.sizeInputs
                  && g.frameInputs == f.frameInputs
                  && g.lineItemSize == f.lineItemSize && g.lineItemFrame == f.lineItemFrame)
  {
  }

  /** For a purchasable selection the line items carry the selected size and frame. */
  lemma SkuStepLineItems(h: Host, s: PageState)
    requires ProjectSku(h.catalog, s.Selection(Size), s.Selection(Frame)).Purchasable?
    ensures SkuStep(h, s).form.lineItemSize == s.Selection(Size).value
    ensures SkuStep(h, s).form.lineItemFrame == s.Selection(Frame).value
  {
    var view := ProjectSku(h.catalog, s.Selection(Size), s.Selection(Frame));
    SkuStepProjects(h, s);
    ShowViewShows(h, s.form, view);
    assert IsMatch(view.variant, s.Selection(Size), s.Selection(Frame));
  }

  /** An incomplete selection announces nothing; a complete one stores its match (possibly
      none), dispatches exactly one event carrying it, and calls the hook once when present.
      The buttons and the gallery are left alone. */
  lemma SkuStepAnnounces(h: Host, s: PageState)
    ensures var t := SkuStep(h, s);
            var size, frame := s.Selection(Size), s.Selection(Frame);
            var m := MatchVariant(h.catalog, size, frame);
            && (!Chosen(size) || !Chosen(frame) ==>
                  t.dispatched == s.dispatched && t.hookCalls == s.hookCalls && t.selectedVariant == s.selectedVariant)
            && (Chosen(size) && Chosen(frame) ==>
                  && t.selectedVariant == m
                  && t.dispatched == s.dispatched + [m]
                  && t.hookCalls == s.hookCalls + (if h.hasHook then [HookArgument(size.value, frame.value)] else []))
            && t.sizeButtons == s.sizeButtons && t.frameButtons == s.frameButtons
            && t.containers == s.containers && t.listening == s.listening
  {
  }

  /** What a view shows does not depend on the hidden id and price text it overwrites:
      re-showing a view over its own result, whatever was written to those two sinks in
      between, gives the same form. */
  lemma ShowViewAbsorbs(h: Host, f: Form, g: Form, view: SkuView)
    requires g.(variantId := "", priceText := "") == ShowView(h, f, view).(variantId := "", priceText := "")
    ensures ShowView(h, g, view) == ShowView(h, f, view)
  {
    var shown := ShowView(h, f, view);
    assert g.variantIdInputs == shown.variantIdInputs && g.sizeInputs == shown.sizeInputs;
    assert g.frameInputs == shown.frameInputs && g.addToCartDisabled == shown.addToCartDisabled;
    assert g.lineItemSize == shown.lineItemSize && g.lineItemFrame == shown.lineItemFrame;
  }

  /** An incomplete selection clears the hidden id, disables the add-to-cart button when
      there is one and asks for options; nothing else on the page changes. */
  lemma IncompleteSelectionShows(h: Host, s: PageState)
    requires !Chosen(s.Selection(Size)) || !Chosen(s.Selection(Frame))
    ensures SkuStep(h, s) ==
              s.(form := s.form.(variantId := "",
                                 addToCartDisabled := h.hasAddToCart || s.form.addToCartDisabled,
                                 priceText := "Select Options"))
  {
    var t := SkuStep(h, s);
    ShowViewShows(h, s.form, SelectOptions);
    assert t.form == s.form.(variantId := "", addToCartDisabled := h.hasAddToCart || s.form.addToCartDisabled,
                             priceText := "Select Options");
  }

  /** Marking availability keeps every button's value and `active` class, hence the
      selection, and flags each button exactly when no available record pairs its value with
      the other group's selection. */
  lemma AvailabilityStepFlags(h: Host, s: PageState, g: Group)
    ensures var t := AvailabilityStep(h, s);
            && t.Selection(g) == s.Selection(g)
            && |t.Buttons(g)| == |s.Buttons(g)|
            && forall k :: 0 <= k < |t.Buttons(g)| ==>
                 && t.Buttons(g)[k].value == s.Buttons(g)[k].value
                 && t.Buttons(g)[k].active == s.Buttons(g)[k].active
                 && t.Buttons(g)[k].disabled == t.Buttons(g)[k].unavailable
                 && (t.Buttons(g)[k].disabled <==>
                       forall v :: v in h.catalog && v.available && Some(ValueIn(v, Other(g))) == s.Selection(Other(g))
                                   ==> ValueIn(v, g) != s.Buttons(g)[k].value)
  {
    var t := AvailabilityStep(h, s);
    var r := Reachable(h.catalog, g, s.Selection(Other(g)));
    assert t.Buttons(g) == MarkAll(s.Buttons(g), r);
    MarkKeepsSelection(s.Buttons(g), r);
    forall k | 0 <= k < |t.Buttons(g)|
      ensures t.Buttons(g)[k].disabled <==>
                forall v :: v in h.catalog && v.available && Some(ValueIn(v, Other(g))) == s.Selection(Other(g))
                            ==> ValueIn(v, g) != s.Buttons(g)[k].value
    {
      MarkedMeans(h.catalog, g, s.Selection(Other(g)), s.Buttons(g)[k]);
    }
  }

  /** The gallery shows the record matched by the active values, whether the selection
      is complete or not: it becomes the selected record, its id and price win, and the
      containers are refreshed from its configuration unless decoding throws, in which case
      they are left as they were. Nothing else changes. */
  lemma GalleryStepShows(h: Host, s: PageState)
    ensures var r := GalleryStep(h, s);
            var m := MatchVariant(h.catalog, s.Selection(Size), s.Selection(Frame));
            && r.state.selectedVariant == m
            && r.state.form.variantId == (if m.Some? then m.value.id else s.form.variantId)
            && r.state.form.priceText == (if m.Some? then m.value.priceFormatted else s.form.priceText)
            && r.threw == (m.Some? && Decode(m.value.mockConfig, h.parse).Err?)
            && (!r.threw && m.Some? ==>
                  var cfg := Decode(m.value.mockConfig, h.parse).value;
                  r.state.containers == RefreshAll(s.containers, OverlayUrl(cfg), PlacementOf(cfg)))
            && (r.threw || m.None? ==> r.state.containers == s.containers)
            && r.state.form.(variantId := s.form.variantId, priceText := s.form.priceText) == s.form
            && r.state.sizeButtons == s.sizeButtons && r.state.frameButtons == s.frameButtons
            && r.state.dispatched == s.dispatched && r.state.hookCalls == s.hookCalls
            && r.state.listening == s.listening
  {
  }

  /** A refresh keeps every button's value and `active` class: only the availability
      flags change. */
  lemma RefreshKeepsActive(h: Host, s: PageState, g: Group)
    ensures var b := Refresh(h, s).state.Buttons(g);
            && |b| == |s.Buttons(g)|
            && forall k :: 0 <= k < |b| ==> b[k].value == s.Buttons(g)[k].value && b[k].active == s.Buttons(g)[k].active
  {
    var t := SkuStep(h, s);
    SkuStepAnnounces(h, s);
    AvailabilityStepFlags(h, t, g);
    GalleryStepShows(h, AvailabilityStep(h, t));
  }

  /** A refresh never moves the selection of either group. */
  lemma RefreshKeepsSelection(h: Host, s: PageState, g: Group)
    ensures Refresh(h, s).state.Selection(g) == s.Selection(g)
  {
    var t := SkuStep(h, s);
    SkuStepAnnounces(h, s);
    AvailabilityStepFlags(h, t, g);
    GalleryStepShows(h, AvailabilityStep(h, t));
  }

  /** What a refresh leaves for the selection it started from: the purchase state of its
      projection, one event for a complete selection, and the gallery's match winning the
      hidden id and the price text. */
  lemma RefreshShows(h: Host, s: PageState)
    ensures var r := Refresh(h, s);
            var size, frame := s.Selection(Size), s.Selection(Frame);
            var view := ProjectSku(h.catalog, size, frame);
            var m := MatchVariant(h.catalog, size, frame);
            && r.state.form.addToCartDisabled == (if h.hasAddToCart then !view.Purchasable? else s.form.addToCartDisabled)
            && r.state.selectedVariant == m
            && r.state.form.variantId == (if m.Some? then m.value.id else "")
            && r.state.form.priceText == (if m.Some? then m.value.priceFormatted else PriceLabel(view))
            && r.state.dispatched == s.dispatched + (if view == SelectOptions then [] else [m])
            && r.threw == (m.Some? && Decode(m.value.mockConfig, h.parse).Err?)
  {
    var t := SkuStep(h, s);
    var view := ProjectSku(h.catalog, s.Selection(Size), s.Selection(Frame));
    SkuStepProjects(h, s);
    ShowViewShows(h, s.form, view);
    SkuStepAnnounces(h, s);
    var u := AvailabilityStep(h, t);
    AvailabilityStepFlags(h, t, Size);
    AvailabilityStepFlags(h, t, Frame);
    GalleryStepShows(h, u);
  }

  /** Marking buttons that were already marked under the same active values changes
      nothing. */
  lemma AvailabilityRepeats(h: Host, t: PageState, v: PageState)
    requires v.sizeButtons == AvailabilityStep(h, t).sizeButtons
    requires v.frameButtons == AvailabilityStep(h, t).frameButtons
    requires v.Selection(Size) == t.Selection(Size) && v.Selection(Frame) == t.Selection(Frame)
    ensures AvailabilityStep(h, v).sizeButtons == v.sizeButtons
    ensures AvailabilityStep(h, v).frameButtons == v.frameButtons
  {
    MarkAllIdempotent(t.frameButtons, Reachable(h.catalog, Frame, t.Selection(Size)));
    MarkAllIdempotent(t.sizeButtons, Reachable(h.catalog, Size, t.Selection(Frame)));
  }

  /** The gallery run again with the same active values, over the containers it left,
      throws as it did and leaves the containers alone. */
  lemma GalleryRepeats(h: Host, u: PageState, v: PageState)
    requires forall k :: 0 <= k < |u.containers| ==> |u.containers[k].overlays| <= 1
    requires v.Selection(Size) == u.Selection(Size) && v.Selection(Frame) == u.Selection(Frame)
    requires v.containers == GalleryStep(h, u).state.containers
    ensures GalleryStep(h, v).threw == GalleryStep(h, u).threw
    ensures GalleryStep(h, v).state.containers == v.containers
  {
    GalleryStepShows(h, u);
    GalleryStepShows(h, v);
    var m := MatchVariant(h.catalog, u.Selection(Size), u.Selection(Frame));
    if m.Some? && Decode(m.value.mockConfig, h.parse).Ok? {
      var cfg := Decode(m.value.mockConfig, h.parse).value;
      RefreshAllIdempotent(u.containers, OverlayUrl(cfg), PlacementOf(cfg));
    }
  }

  /** Running the three steps again on an unchanged selection shows the same page: only
      the event and hook logs grow. Containers must hold at most one overlay each, which is
      what the gallery leaves behind. */
  lemma RefreshRepeats(h: Host, s: PageState)
    requires forall k :: 0 <= k < |s.containers| ==> |s.containers[k].overlays| <= 1
    ensures var r1 := Refresh(h, s);
            var r2 := Refresh(h, r1.state);
            && r2.threw == r1.threw
            && r2.state.(dispatched := r1.state.dispatched, hookCalls := r1.state.hookCalls) == r1.state
  {
    var size, frame := s.Selection(Size), s.Selection(Frame);
    var view := ProjectSku(h.catalog, size, frame);
    var m := MatchVariant(h.catalog, size, frame);
    var t1 := SkuStep(h, s);
    var u1 := AvailabilityStep(h, t1);
    var r1 := GalleryStep(h, u1);
    var s1 := r1.state;
    SkuStepAnnounces(h, s);
    SkuStepProjects(h, s);
    GalleryStepShows(h, u1);
    RefreshKeepsSelection(h, s, Size);
    RefreshKeepsSelection(h, s, Frame);
    assert s1.Selection(Size) == size && s1.Selection(Frame) == frame;

    var t2 := SkuStep(h, s1);
    var u2 := AvailabilityStep(h, t2);
    var r2 := GalleryStep(h, u2);
    SkuStepAnnounces(h, s1);
    SkuStepProjects(h, s1);
    GalleryStepShows(h, u2);

    // The form: the second projection overwrites what the gallery wrote.
    ShowViewAbsorbs(h, s.form, s1.form, view);
    assert t2.form == t1.form;

    // The buttons: marking again against the same sets changes nothing.
    AvailabilityRepeats(h, t1, t2);
    assert u2.frameButtons == s1.frameButtons && u2.sizeButtons == s1.sizeButtons;

    // The gallery: the same match, and a second refresh of refreshed containers is a no-op.
    assert u2.containers == s1.containers && u1.containers == s.containers;
    GalleryRepeats(h, u1, u2);
    assert r2.state.form == s1.form;
  }

  /** When the selection a refresh starts from is purchasable, every button carrying the
      selected value of either group stays enabled and unflagged: the availability pass
      never disables what the shopper can buy. */
  lemma RefreshEnablesPurchasable(h: Host, s: PageState, g: Group)
    requires ProjectSku(h.catalog, s.Selection(Size), s.Selection(Frame)).Purchasable?
    ensures var b := Refresh(h, s).state.Buttons(g);
            forall k :: 0 <= k < |b| && b[k].value == s.Selection(g).value ==> !b[k].disabled && !b[k].unavailable
  {
    var t := SkuStep(h, s);
    SkuStepAnnounces(h, s);
    var u := AvailabilityStep(h, t);
    GalleryStepShows(h, u);
    var reachable := Reachable(h.catalog, g, s.Selection(Other(g)));
    var b := Refresh(h, s).state.Buttons(g);
    assert b == MarkAll(s.Buttons(g), reachable);
    PurchasableStaysEnabled(h.catalog, s.Selection(Size), s.Selection(Frame));
    assert s.Selection(g).value in reachable;
    forall k | 0 <= k < |b| && b[k].value == s.Selection(g).value
      ensures !b[k].disabled && !b[k].unavailable
    {
      assert Flagged(b[k], reachable);
    }
  }

  /** After a click the clicked group's selection is the clicked value and the other
      group's is unchanged. */
  lemma ClickSelectsValue(h: Host, s: PageState, g: Group, i: nat)
    requires i < |s.Buttons(g)|
    ensures Click(h, s, g, i).state.Selection(g) == Some(s.Buttons(g)[i].value)
    ensures Click(h, s, g, i).state.Selection(Other(g)) == s.Selection(Other(g))
  {
    var a := s.WithButtons(g, ActivateOnly(s.Buttons(g), i));
    ClickSelects(s.Buttons(g), i);
    assert a.Buttons(g) == ActivateOnly(s.Buttons(g), i);
    assert a.Buttons(Other(g)) == s.Buttons(Other(g));
    RefreshKeepsSelection(h, a, g);
    RefreshKeepsSelection(h, a, Other(g));
  }

  /** After a click the clicked button is the only active one of its group, and every
      button of the other group keeps its `active` class. */
  lemma ClickActiveFlags(h: Host, s: PageState, g: Group, i: nat)
    requires i < |s.Buttons(g)|
    ensures var b := Click(h, s, g, i).state.Buttons(g);
            |b| == |s.Buttons(g)| && forall k :: 0 <= k < |b| ==> (b[k].active <==> k == i)
    ensures var b := Click(h, s, g, i).state.Buttons(Other(g));
            |b| == |s.Buttons(Other(g))| && forall k :: 0 <= k < |b| ==> b[k].active == s.Buttons(Other(g))[k].active
  {
    var a := s.WithButtons(g, ActivateOnly(s.Buttons(g), i));
    assert a.Buttons(g) == ActivateOnly(s.Buttons(g), i);
    assert a.Buttons(Other(g)) == s.Buttons(Other(g));
    RefreshKeepsActive(h, a, g);
    RefreshKeepsActive(h, a, Other(g));
  }

  /** Startup activates exactly the buttons carrying the cheapest record's size and frame;
      with no available record it activates nothing, announces nothing and only attaches the
      listeners. */
  lemma BootActiveFlags(h: Host, s: PageState, cheapest: Option<nat>, g: Group)
    requires cheapest.Some? ==> cheapest.value < |h.catalog|
    ensures var b := Boot(h, s, cheapest).state.Buttons(g);
            && |b| == |s.Buttons(g)|
            && forall k :: 0 <= k < |b| ==>
                 b[k].active == (if cheapest.Some? then s.Buttons(g)[k].value == ValueIn(h.catalog[cheapest.value], g)
                                 else s.Buttons(g)[k].active)
    ensures cheapest.None? ==> Boot(h, s, cheapest) == Outcome(s.(listening := true), false)
  {
    if cheapest.Some? {
      var c := h.catalog[cheapest.value];
      var a := ActivateRecord(s, c);
      assert a.Buttons(g) == ActivateMatching(s.Buttons(g), ValueIn(c, g));
      RefreshKeepsActive(h, a, g);
    }
  }

  /** At startup with a cheapest record whose size and frame both have a button, the page
      selects exactly that size and frame, and attaches the listeners unless the refresh
      threw. */
  lemma BootSelectsCheapest(h: Host, s: PageState, k: nat)
    requires IsCheapest(h.catalog, k)
    requires exists i :: 0 <= i < |s.sizeButtons| && s.sizeButtons[i].value == h.catalog[k].size
    requires exists i :: 0 <= i < |s.frameButtons| && s.frameButtons[i].value == h.catalog[k].frame
    ensures var r := Boot(h, s, Some(k));
            && r.state.Selection(Size) == Some(h.catalog[k].size)
            && r.state.Selection(Frame) == Some(h.catalog[k].frame)
            && r.state.listening == !r.threw
  {
    var c := h.catalog[k];
    var a := ActivateRecord(s, c);
    ActivateMatchingSelects(s.sizeButtons, c.size);
    ActivateMatchingSelects(s.frameButtons, c.frame);
    assert a.Selection(Size) == Some(c.size) && a.Selection(Frame) == Some(c.frame);
    RefreshKeepsSelection(h, a, Size);
    RefreshKeepsSelection(h, a, Frame);
  }

  /** Under the catalog invariant, a cheapest record with no border and non-empty values,
      once its buttons are active, is shown as purchasable at its own price. */
  lemma BootShowsCheapest(h: Host, s: PageState, k: nat)
    requires IsCheapest(h.catalog, k) && UniqueOptions(h.catalog)
    requires h.catalog[k].border == NoBorder && h.catalog[k].size != "" && h.catalog[k].frame != ""
    requires exists i :: 0 <= i < |s.sizeButtons| && s.sizeButtons[i].value == h.catalog[k].size
    requires exists i :: 0 <= i < |s.frameButtons| && s.frameButtons[i].value == h.catalog[k].frame
    ensures var r := Boot(h, s, Some(k));
            && r.state.form.priceText == h.catalog[k].priceFormatted
            && r.state.form.variantId == h.catalog[k].id
            && (h.hasAddToCart ==> !r.state.form.addToCartDisabled)
  {
    var c := h.catalog[k];
    var a := ActivateRecord(s, c);
    ActivateMatchingSelects(s.sizeButtons, c.size);
    ActivateMatchingSelects(s.frameButtons, c.frame);
    assert a.Selection(Size) == Some(c.size) && a.Selection(Frame) == Some(c.frame);
    MatchUnderUniqueness(h.catalog, Some(c.size), Some(c.frame), k);
    RefreshShows(h, a);
  }
}
