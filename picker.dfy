/** The option buttons of the two pickers and the pure part of what the picker shows:
    the active selection of a group (assets/pdp-init.js:2-3, 53-57, 105-108), the
    availability flags of a button (assets/pdp-init.js:11-20, 28-37) and the three-way
    projection of a selection onto price text and purchase state (assets/pdp-init.js:59-85). */
module Picker {
  import opened Common
  import opened Catalog

  /** An `.option-button`: its `data-option-value`, the `active` and `unavailable`
      classes, and its `disabled` property. */
  datatype Button = Button(value: string, active: bool, disabled: bool, unavailable: bool)

  /** The index `querySelector('<picker> .option-button.active')` finds: the first active
      button in document order, or none. */
  function ActiveIndex(buttons: seq<Button>): (r: Option<nat>)
    ensures r.Some? ==> r.value < |buttons| && buttons[r.value].active
    ensures r.Some? ==> forall j :: 0 <= j < r.value ==> !buttons[j].active
    ensures r.None? ==> forall j :: 0 <= j < |buttons| ==> !buttons[j].active
  {
    if |buttons| == 0 then None
    else if buttons[0].active then Some(0)
    else
      match ActiveIndex(buttons[1..])
      case None => None
      case Some(k) => Some(k + 1)
  }

  /** `...?.dataset.optionValue` of that button: the group's selection, none when no
      button of the group is active. */
  function SelectedValue(buttons: seq<Button>): (r: Option<string>)
    ensures r.None? <==> forall i :: 0 <= i < |buttons| ==> !buttons[i].active
    ensures r.Some? ==> ActiveIndex(buttons).Some? && r.value == buttons[ActiveIndex(buttons).value].value
  {
    match ActiveIndex(buttons)
    case Some(i) => Some(buttons[i].value)
    case None => None
  }

  /** The selection is the value of the first active button in document order. */
  lemma SelectedIsFirstActive(buttons: seq<Button>)
    requires SelectedValue(buttons).Some?
    ensures exists i :: 0 <= i < |buttons| && buttons[i].active && SelectedValue(buttons).value == buttons[i].value &&
                        forall j :: 0 <= j < i ==> !buttons[j].active
  {
    var i := ActiveIndex(buttons).value;
    assert buttons[i].active && SelectedValue(buttons).value == buttons[i].value;
  }

  /** When exactly one button of a group is active, the group's selection is its value. */
  lemma SoleActiveIsSelected(buttons: seq<Button>, i: nat)
    requires i < |buttons| && buttons[i].active
    requires forall j :: 0 <= j < |buttons| && j != i ==> !buttons[j].active
    ensures SelectedValue(buttons) == Some(buttons[i].value)
  {
    var r := ActiveIndex(buttons);
    assert r.Some? && r.value == i;
  }

  /** Changing anything but the value and the `active` class of the buttons does not
      change the selection, so marking availability never moves it. */
  lemma SelectionIgnoresFlags(before: seq<Button>, after: seq<Button>)
    requires |before| == |after|
    requires forall i :: 0 <= i < |before| ==>
               after[i].value == before[i].value && after[i].active == before[i].active
    ensures SelectedValue(after) == SelectedValue(before)
  {
    var r := ActiveIndex(before);
    var r' := ActiveIndex(after);
    assert r.Some? <==> r'.Some?;
    if r.Some? {
      assert r.value == r'.value;
    }
  }

  /** A button whose `disabled` property and `unavailable` class both say whether its
      value is outside the reachable set. */
  predicate Flagged(b: Button, reachable: set<string>)
  {
    b.disabled == (b.value !in reachable) && b.unavailable == (b.value !in reachable)
  }

  /** One iteration of the `forEach` at lines 11-20 and 28-37. */
  function Mark(b: Button, reachable: set<string>): Button
  {
    b.(disabled := b.value !in reachable, unavailable := b.value !in reachable)
  }

  /** The whole `forEach` of lines 11-20 (or 28-37): every button of the group marked against
      the reachable set, keeping its value and its `active` class. */
  function MarkAll(buttons: seq<Button>, reachable: set<string>): (r: seq<Button>)
    ensures |r| == |buttons|
    ensures forall k :: 0 <= k < |r| ==>
              && r[k].value == buttons[k].value && r[k].active == buttons[k].active
              && Flagged(r[k], reachable)
  {
    seq(|buttons|, k requires 0 <= k < |buttons| => Mark(buttons[k], reachable))
  }

  /** Marking a group never moves its selection. */
  lemma MarkKeepsSelection(buttons: seq<Button>, reachable: set<string>)
    ensures SelectedValue(MarkAll(buttons, reachable)) == SelectedValue(buttons)
  {
    SelectionIgnoresFlags(buttons, MarkAll(buttons, reachable));
  }

  /** Marking twice against the same set is marking once. */
  lemma MarkAllIdempotent(buttons: seq<Button>, reachable: set<string>)
    ensures MarkAll(MarkAll(buttons, reachable), reachable) == MarkAll(buttons, reachable)
  {
    var once := MarkAll(buttons, reachable);
    var twice := MarkAll(once, reachable);
    forall k | 0 <= k < |once|
      ensures twice[k] == once[k]
    {
      assert Flagged(twice[k], reachable) && Flagged(once[k], reachable);
    }
  }

  /** Lines 95-98: the `active` class is taken off every button of the group and put on the
      clicked one, the `i`-th. */
  function ActivateOnly(buttons: seq<Button>, i: nat): (r: seq<Button>)
    requires i < |buttons|
    ensures |r| == |buttons|
    ensures forall k :: 0 <= k < |r| ==>
              && r[k].value == buttons[k].value && r[k].disabled == buttons[k].disabled
              && r[k].unavailable == buttons[k].unavailable
              && (r[k].active <==> k == i)
  {
    seq(|buttons|, k requires 0 <= k < |buttons| => buttons[k].(active := k == i))
  }

  /** After a click, the group's selection is the clicked button's value. */
  lemma ClickSelects(buttons: seq<Button>, i: nat)
    requires i < |buttons|
    ensures SelectedValue(ActivateOnly(buttons, i)) == Some(buttons[i].value)
  {
    SoleActiveIsSelected(ActivateOnly(buttons, i), i);
  }

  /** Lines 184-190 (or 191-197): exactly the buttons whose value is `target` become active. */
  function ActivateMatching(buttons: seq<Button>, target: string): (r: seq<Button>)
    ensures |r| == |buttons|
    ensures forall k :: 0 <= k < |r| ==>
              && r[k].value == buttons[k].value && r[k].disabled == buttons[k].disabled
              && r[k].unavailable == buttons[k].unavailable
              && (r[k].active <==> buttons[k].value == target)
  {
    seq(|buttons|, k requires 0 <= k < |buttons| => buttons[k].(active := buttons[k].value == target))
  }

  /** Activating by value selects that value when some button carries it, and leaves the
      group without a selection otherwise. */
  lemma ActivateMatchingSelects(buttons: seq<Button>, target: string)
    ensures SelectedValue(ActivateMatching(buttons, target)) ==
              if exists k :: 0 <= k < |buttons| && buttons[k].value == target then Some(target) else None
  {
    var r := ActivateMatching(buttons, target);
    match ActiveIndex(r)
    case Some(i) =>
      assert buttons[i].value == target;
    case None =>
      forall k | 0 <= k < |buttons|
        ensures buttons[k].value != target
      {
        assert !r[k].active;
      }
  }

  /** After marking, a button of group `g` is disabled and flagged unavailable exactly when
      no available record has the other group's active value and this button's value. */
  lemma {:induction false} MarkedMeans(catalog: seq<Variant>, g: Group, other: Option<string>, b: Button)
    ensures var m := Mark(b, Reachable(catalog, g, other));
            && m.value == b.value && m.active == b.active
            && m.disabled == m.unavailable
            && (m.disabled <==> forall v :: v in catalog && v.available && Some(ValueIn(v, Other(g))) == other
                                           ==> ValueIn(v, g) != b.value)
  {
    ReachableMeans(catalog, g, other, b.value);
  }

  /** JavaScript truthiness of a selection (line 59): a missing value and '' are falsy. */
  predicate Chosen(x: Option<string>)
  {
    x.Some? && x.value != ""
  }

  /** The three states `updateSkuPicker` distinguishes. */
  datatype SkuView = SelectOptions | Purchasable(variant: Variant) | Unavailable

  /** Lines 59-85: an incomplete selection asks for options; a complete one is purchasable
      when its first "No Border" record is available, and unavailable otherwise (no record,
      or a record that is out of stock). */
  function ProjectSku(catalog: seq<Variant>, size: Option<string>, frame: Option<string>): (r: SkuView)
    ensures r == SelectOptions <==> !Chosen(size) || !Chosen(frame)
    ensures r.Purchasable? ==>
              && r.variant in catalog && r.variant.available && IsMatch(r.variant, size, frame)
              && MatchVariant(catalog, size, frame) == Some(r.variant)
  {
    if !Chosen(size) || !Chosen(frame) then SelectOptions
    else
      match MatchVariant(catalog, size, frame)
      case Some(m) => if m.available then Purchasable(m) else Unavailable
      case None => Unavailable
  }

  /** A complete selection reads "Unavailable" exactly when every available record with
      that size, frame and border is shadowed by an earlier, unavailable one (or there is
      none at all). */
  lemma UnavailableMeansShadowed(catalog: seq<Variant>, size: Option<string>, frame: Option<string>)
    requires Chosen(size) && Chosen(frame)
    ensures ProjectSku(catalog, size, frame) == Unavailable <==>
              forall k :: 0 <= k < |catalog| && IsMatch(catalog[k], size, frame) && catalog[k].available ==>
                exists j :: 0 <= j < k && IsMatch(catalog[j], size, frame) && !catalog[j].available
  {
    var r := MatchIndex(catalog, size, frame);
    if r.Some? {
      var i := r.value;
      if catalog[i].available {
        assert !(exists j :: 0 <= j < i && IsMatch(catalog[j], size, frame) && !catalog[j].available);
      } else {
        forall k | 0 <= k < |catalog| && IsMatch(catalog[k], size, frame) && catalog[k].available
          ensures exists j :: 0 <= j < k && IsMatch(catalog[j], size, frame) && !catalog[j].available
        {
          assert i < k;
        }
      }
    }
  }

  /** The text written to `#sku-price` by `updateSkuPicker`. */
  function PriceLabel(view: SkuView): string
  {
    match view
    case SelectOptions => "Select Options"
    case Purchasable(v) => v.priceFormatted
    case Unavailable => "Unavailable"
  }

  /** Under the catalog invariant, a complete selection is purchasable exactly when the
      catalog holds an available "No Border" record with that size and frame. */
  lemma PurchasableIff(catalog: seq<Variant>, size: Option<string>, frame: Option<string>, v: Variant)
    requires UniqueOptions(catalog)
    ensures ProjectSku(catalog, size, frame) == Purchasable(v) <==>
              Chosen(size) && Chosen(frame) && v in catalog && v.available && IsMatch(v, size, frame)
  {
    if Chosen(size) && Chosen(frame) && v in catalog && v.available && IsMatch(v, size, frame) {
      var k :| 0 <= k < |catalog| && catalog[k] == v;
      MatchUnderUniqueness(catalog, size, frame, k);
    }
  }

  /** The buttons of a purchasable selection stay enabled: its own frame is reachable from
      its size and its own size from its frame. */
  lemma {:induction false} PurchasableStaysEnabled(catalog: seq<Variant>, size: Option<string>, frame: Option<string>)
    requires ProjectSku(catalog, size, frame).Purchasable?
    ensures frame.Some? && frame.value in Reachable(catalog, Frame, size)
    ensures size.Some? && size.value in Reachable(catalog, Size, frame)
  {
    var v := ProjectSku(catalog, size, frame).variant;
    ReachableMeans(catalog, Frame, size, v.frame);
    ReachableMeans(catalog, Size, frame, v.size);
  }
}
