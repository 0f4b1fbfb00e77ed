/** The product page as the script drives it (assets/pdp-init.js): one object whose
    fields are the elements the script reads and writes, and whose methods are the
    script's functions, each proved to perform the matching step of module Steps. */
module Page {
  import opened Common
  import opened Overlay
  import opened Catalog
  import opened Picker
  import opened Steps

  /** Lines 173-180: the first available record with the strictly lowest price, found by
      one pass that keeps the running minimum. The result is the record's index. */
  method FindCheapest(catalog: seq<Variant>) returns (cheapest: Option<nat>)
    ensures cheapest.Some? ==> IsCheapest(catalog, cheapest.value)
    ensures cheapest.None? <==> forall j :: 0 <= j < |catalog| ==> !catalog[j].available
  {
    var minPrice: Option<int> := None;
    cheapest := None;
    for i := 0 to |catalog|
      invariant minPrice.Some? <==> cheapest.Some?
      invariant cheapest.Some? ==>
                  IsCheapestAmong(catalog, i, cheapest.value) && minPrice.value == catalog[cheapest.value].price
      invariant cheapest.None? ==> forall j :: 0 <= j < i ==> !catalog[j].available
    {
      var v := catalog[i];
      if !v.available {
        continue;
      }
      if minPrice.None? || v.price < minPrice.value {
        minPrice := Some(v.price);
        cheapest := Some(i);
      }
    }
  }

  class ProductPage {
    /** `window.ABSTRACT_VARIANTS`, read-only. */
    const catalog: seq<Variant>
    /** JSON.parse, as the host provides it. */
    const parse: string -> Parsed
    /** Whether `#add-to-cart-form button[type="submit"]` exists. */
    const hasAddToCart: bool
    /** Whether `window.frameUp_setVirtualOptionValues` is a function. */
    const hasHook: bool

    var sizeButtons: seq<Button>
    var frameButtons: seq<Button>
    var variantId: string
    var variantIdInputs: seq<string>
    var sizeInputs: seq<string>
    var frameInputs: seq<string>
    var lineItemSize: string
    var lineItemFrame: string
    var addToCartDisabled: bool
    var priceText: string
    var containers: seq<Container>
    var selectedVariant: Option<Variant>
    var dispatched: seq<Option<Variant>>
    var hookCalls: seq<seq<VirtualOption>>
    var listening: bool

    function Env(): Host
    {
      Host(catalog, parse, hasAddToCart, hasHook)
    }

    function FormState(): Form
      reads this`variantId, this`variantIdInputs, this`sizeInputs, this`frameInputs,
            this`lineItemSize, this`lineItemFrame, this`addToCartDisabled, this`priceText
    {
      Form(variantId, variantIdInputs, sizeInputs, frameInputs, lineItemSize, lineItemFrame,
           addToCartDisabled, priceText)
    }

    /** The page as a value. */
    function State(): PageState
      reads this
    {
      PageState(sizeButtons, frameButtons, FormState(), containers, selectedVariant, dispatched,
                hookCalls, listening)
    }

    /** A freshly loaded page: the buttons, the form sinks and the containers as the markup
        has them, no record selected, nothing announced, no listener attached. */
    constructor (catalog: seq<Variant>, parse: string -> Parsed, hasAddToCart: bool, hasHook: bool,
                 sizes: seq<Button>, frames: seq<Button>, form: Form, mocks: seq<Container>)
      ensures Env() == Host(catalog, parse, hasAddToCart, hasHook)
      ensures State() == PageState(sizes, frames, form, mocks, None, [], [], false)
    {
      this.catalog := catalog;
      this.parse := parse;
      this.hasAddToCart := hasAddToCart;
      this.hasHook := hasHook;
      sizeButtons, frameButtons, containers := sizes, frames, mocks;
      variantId, variantIdInputs, sizeInputs, frameInputs := form.variantId, form.variantIdInputs, form.sizeInputs, form.frameInputs;
      lineItemSize, lineItemFrame := form.lineItemSize, form.lineItemFrame;
      addToCartDisabled, priceText := form.addToCartDisabled, form.priceText;
      selectedVariant, dispatched, hookCalls, listening := None, [], [], false;
    }

    method SetButtons(g: Group, buttons: seq<Button>)
      modifies this
      ensures State() == old(State()).WithButtons(g, buttons)
    {
      match g
      case Size => sizeButtons := buttons;
      case Frame => frameButtons := buttons;
    }

    /** One `forEach` of lines 11-20 or 28-37: every button of group `g` is flagged against
        the reachable set. */
    method MarkGroup(g: Group, reachable: set<string>)
      modifies this
      ensures State() == old(State()).WithButtons(g, MarkAll(old(State()).Buttons(g), reachable))
    {
      ghost var before := State().Buttons(g);
      var n := |State().Buttons(g)|;
      for k := 0 to n
        invariant |State().Buttons(g)| == n
        invariant forall j :: 0 <= j < k ==> State().Buttons(g)[j] == Mark(before[j], reachable)
        invariant forall j :: k <= j < n ==> State().Buttons(g)[j] == before[j]
        invariant State() == old(State()).WithButtons(g, State().Buttons(g))
      {
        var buttons := State().Buttons(g);
        SetButtons(g, buttons[k := Mark(buttons[k], reachable)]);
      }
      assert State().Buttons(g) == MarkAll(before, reachable);
    }

    /** Lines 1-38: frames flagged against the active size, then sizes against the active
        frame. */
    method UpdateOptionAvailability()
      modifies this
      ensures State() == AvailabilityStep(Env(), old(State()))
    {
      var size := SelectedValue(sizeButtons);
      var frame := SelectedValue(frameButtons);
      MarkGroup(Frame, Reachable(catalog, Frame, size));
      MarkGroup(Size, Reachable(catalog, Size, frame));
    }

    /** Lines 40-50: each of the three input lists is walked and every input set. */
    method SyncHorizonVariantInput(id: string, size: string, frame: string)
      modifies this`variantIdInputs, this`sizeInputs, this`frameInputs
      ensures FormState() == Sync(old(FormState()), id, size, frame)
    {
      for k := 0 to |variantIdInputs|
        invariant |variantIdInputs| == |old(variantIdInputs)|
        invariant forall j :: 0 <= j < k ==> variantIdInputs[j] == id
        modifies this`variantIdInputs
      {
        variantIdInputs := variantIdInputs[k := id];
      }
      for k := 0 to |sizeInputs|
        invariant |sizeInputs| == |old(sizeInputs)|
        invariant forall j :: 0 <= j < k ==> sizeInputs[j] == size
        modifies this`sizeInputs
      {
        sizeInputs := sizeInputs[k := size];
      }
      for k := 0 to |frameInputs|
        invariant |frameInputs| == |old(frameInputs)|
        invariant forall j :: 0 <= j < k ==> frameInputs[j] == frame
        modifies this`frameInputs
      {
        frameInputs := frameInputs[k := frame];
      }
      assert variantIdInputs == Filled(|old(variantIdInputs)|, id);
      assert sizeInputs == Filled(|old(sizeInputs)|, size);
      assert frameInputs == Filled(|old(frameInputs)|, frame);
    }

    /** The sinks written at lines 60-63, lines 72-78 and lines 80-84. */
    method ShowSku(view: SkuView)
      modifies this`variantId, this`variantIdInputs, this`sizeInputs, this`frameInputs,
               this`lineItemSize, this`lineItemFrame, this`addToCartDisabled, this`priceText
      ensures FormState() == ShowView(Env(), old(FormState()), view)
    {
      match view
      case Purchasable(v) =>
        variantId := v.id;
        SyncHorizonVariantInput(v.id, v.size, v.frame);
        lineItemSize := v.size;
        lineItemFrame := v.frame;
        if hasAddToCart {
          addToCartDisabled := false;
        }
        priceText := v.priceFormatted;
      case _ =>
        variantId := "";
        if hasAddToCart {
          addToCartDisabled := true;
        }
        priceText := if view.SelectOptions? then "Select Options" else "Unavailable";
    }

    /** Lines 52-90. */
    method UpdateSkuPicker()
      modifies this`variantId, this`variantIdInputs, this`sizeInputs, this`frameInputs,
               this`lineItemSize, this`lineItemFrame, this`addToCartDisabled, this`priceText,
               this`selectedVariant, this`dispatched, this`hookCalls
      ensures State() == SkuStep(Env(), old(State()))
    {
      var size := SelectedValue(sizeButtons);
      var frame := SelectedValue(frameButtons);
      if !Chosen(size) || !Chosen(frame) {
        ShowSku(SelectOptions);
        return;
      }
      ShowMatch(size.value, frame.value);
    }

    /** Lines 67-89, once both groups have a value: the first matching record is stored
        and announced, the form shows it (or "Unavailable"), and the hook is called. */
    method ShowMatch(size: string, frame: string)
      modifies this`variantId, this`variantIdInputs, this`sizeInputs, this`frameInputs,
               this`lineItemSize, this`lineItemFrame, this`addToCartDisabled, this`priceText,
               this`selectedVariant, this`dispatched, this`hookCalls
      ensures var m := MatchVariant(catalog, Some(size), Some(frame));
              && selectedVariant == m && dispatched == old(dispatched) + [m]
              && FormState() == ShowView(Env(), old(FormState()),
                                         if m.Some? && m.value.available then Purchasable(m.value) else Unavailable)
              && hookCalls == if hasHook then old(hookCalls) + [HookArgument(size, frame)] else old(hookCalls)
    {
      var match_ := MatchVariant(catalog, Some(size), Some(frame));
      selectedVariant := match_;
      dispatched := dispatched + [match_];
      ShowSku(if match_.Some? && match_.value.available then Purchasable(match_.value) else Unavailable);
      if hasHook {
        hookCalls := hookCalls + [HookArgument(size, frame)];
      }
    }

    /** Lines 129-170. */
    method UpdateMockGalleryDOM(variant: Option<Variant>) returns (threw: bool)
      modifies this`containers
      ensures Outcome(State(), threw) == GalleryDom(Env(), old(State()), variant)
    {
      threw := false;
      if variant.None? {
        return;
      }
      var decoded := Decode(variant.value.mockConfig, parse);
      if decoded.Err? {
        threw := true;
        return;
      }
      var url := OverlayUrl(decoded.value);
      var placement := PlacementOf(decoded.value);
      for k := 0 to |containers|
        invariant |containers| == |old(containers)|
        invariant forall j :: 0 <= j < k ==> containers[j] == RefreshContainer(old(containers)[j], url, placement)
        invariant forall j :: k <= j < |containers| ==> containers[j] == old(containers)[j]
      {
        containers := containers[k := RefreshContainer(containers[k], url, placement)];
      }
      assert containers == RefreshAll(old(containers), url, placement);
    }

    /** Lines 110-128. */
    method UpdateMockGallery() returns (threw: bool)
      modifies this`variantId, this`priceText, this`selectedVariant, this`containers
      ensures Outcome(State(), threw) == GalleryStep(Env(), old(State()))
    {
      var size := SelectedValue(sizeButtons);
      var frame := SelectedValue(frameButtons);
      var match_ := MatchVariant(catalog, size, frame);
      selectedVariant := match_;
      threw := false;
      if match_.None? {
        return;
      }
      variantId, priceText := match_.value.id, match_.value.priceFormatted;
      ghost var shown := State();
      assert shown == old(State()).(selectedVariant := match_,
                                    form := old(State()).form.(variantId := match_.value.id,
                                                               priceText := match_.value.priceFormatted));
      threw := UpdateMockGalleryDOM(match_);
    }

    /** Lines 99-101, the same three calls as lines 200-202. */
    method RefreshPicker() returns (threw: bool)
      modifies this
      ensures Outcome(State(), threw) == Refresh(Env(), old(State()))
    {
      UpdateSkuPicker();
      UpdateOptionAvailability();
      threw := UpdateMockGallery();
    }

    /** Lines 95-98: the `active` class is removed from every button of the group and added
        to the clicked one. */
    method ActivateClicked(g: Group, i: nat)
      requires i < |State().Buttons(g)|
      modifies this
      ensures State() == old(State()).WithButtons(g, ActivateOnly(old(State()).Buttons(g), i))
    {
      ghost var before := State().Buttons(g);
      var n := |State().Buttons(g)|;
      for k := 0 to n
        invariant |State().Buttons(g)| == n
        invariant forall j :: 0 <= j < k ==> State().Buttons(g)[j] == before[j].(active := false)
        invariant forall j :: k <= j < n ==> State().Buttons(g)[j] == before[j]
        invariant State() == old(State()).WithButtons(g, State().Buttons(g))
      {
        var buttons := State().Buttons(g);
        SetButtons(g, buttons[k := buttons[k].(active := false)]);
      }
      var buttons := State().Buttons(g);
      SetButtons(g, buttons[i := buttons[i].(active := true)]);
      assert State().Buttons(g) == ActivateOnly(before, i);
    }

    /** handleOptionClick (lines 92-102) for the `i`-th button of group `g`. It runs only
        once the listeners are attached. */
    method HandleOptionClick(g: Group, i: nat) returns (threw: bool)
      requires listening && i < |State().Buttons(g)|
      modifies this
      ensures Outcome(State(), threw) == Click(Env(), old(State()), g, i)
    {
      ActivateClicked(g, i);
      threw := RefreshPicker();
    }

    /** Lines 184-190 or 191-197: a button becomes active exactly when its value is
        `target`. */
    method ActivateValue(g: Group, target: string)
      modifies this
      ensures State() == old(State()).WithButtons(g, ActivateMatching(old(State()).Buttons(g), target))
    {
      ghost var before := State().Buttons(g);
      var n := |State().Buttons(g)|;
      for k := 0 to n
        invariant |State().Buttons(g)| == n
        invariant forall j :: 0 <= j < k ==>
                    State().Buttons(g)[j] == before[j].(active := before[j].value == target)
        invariant forall j :: k <= j < n ==> State().Buttons(g)[j] == before[j]
        invariant State() == old(State()).WithButtons(g, State().Buttons(g))
      {
        var buttons := State().Buttons(g);
        SetButtons(g, buttons[k := buttons[k].(active := buttons[k].value == target)]);
      }
      assert State().Buttons(g) == ActivateMatching(before, target);
    }

    /** The DOMContentLoaded handler (lines 171-209). `cheapest` is the index of the record
        the loop keeps. A throw in the refresh ends the handler before the listeners are
        attached. */
    method Startup() returns (cheapest: Option<nat>, threw: bool)
      modifies this
      ensures cheapest.Some? ==> IsCheapest(catalog, cheapest.value)
      ensures cheapest.None? <==> forall j :: 0 <= j < |catalog| ==> !catalog[j].available
      ensures Outcome(State(), threw) == Boot(Env(), old(State()), cheapest)
    {
      cheapest := FindCheapest(catalog);
      threw := false;
      if cheapest.Some? {
        var c := catalog[cheapest.value];
        ActivateValue(Size, c.size);
        ActivateValue(Frame, c.frame);
        threw := RefreshPicker();
      }
      listening := !threw;
    }
  }
}
