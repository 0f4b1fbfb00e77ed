# Variant picker of the product page, modelled in Dafny

This project models the script `assets/pdp-init.js` that drives a product page's variant
picker. The shopper picks a size and a frame from two groups of option buttons. The script
resolves the pair against the catalog `window.ABSTRACT_VARIANTS`, which is a list of
records with id, size, frame, border, availability, price, formatted price and mock-up
configuration. It then:

- marks the buttons that cannot lead to an available record;
- fills the hidden form fields, the price text and the add-to-cart button;
- announces the match through an `abstractVariantChange` event and an optional hook;
- redraws the mock-up overlays of the gallery.

At load time it activates the cheapest available record and attaches the click listeners.

Modules:

- `Common`: `Option`, `Result`, and `x || ''` on an optional string.
- `Overlay`: decoding a record's `mock_config`, with the JSON parser as a parameter, and refreshing one `.mockup-container`.
- `Catalog`: the records, the `find` that resolves a selection (the first match wins), the sets of values that stay selectable, and what "cheapest" means.
- `Picker`: the option buttons and a group's selection. It also holds the availability marking, the click and startup activations, and the three-way projection a selection makes (ask for options, purchasable, unavailable).
- `Steps`: the page as a value (`PageState`) and each of the script's functions as a step on it. The lemmas here say what the shopper sees after a step, a click or startup.
- `Page`: the class `ProductPage`. Its fields are the page elements the script reads and writes, and its methods are the script's functions, each written with the script's loops and assignments. Each method is proved to perform the matching step of `Steps`. `FindCheapest` is the startup loop.

## Model

| member | source | states |
|---|---|---|
| Overlay.Decode | assets/pdp-init.js:131-136 | An object configuration is used as it is. A string is parsed, and a parse error falls back to `{}`. A stored or parsed `null` throws, and nothing else does. A non-empty configuration can only come from an object. |
| Overlay.RefreshContainer | assets/pdp-init.js:143-168 | The first overlay is removed. The URL is prepended exactly when it is non-empty, and the other overlays stay in order. An artwork element gets left, width and transform from the placement, `''` where a field is missing. |
| Overlay.RefreshAll | assets/pdp-init.js:139-169 | Every container is refreshed with the same URL and placement, and the number of containers is kept. |
| Overlay.RefreshIdempotent | assets/pdp-init.js:141-169 | A container with at most one overlay keeps at most one, and refreshing it twice equals refreshing it once. |
| Overlay.RefreshAllIdempotent | assets/pdp-init.js:139-169 | When every container holds at most one overlay, refreshing all of them twice with the same URL and placement equals refreshing them once. |
| Overlay.MalformedConfigClears | assets/pdp-init.js:132-136 | A string that fails to parse does not throw. The container then only loses its first overlay, and the artwork's three properties become `''`. |
| Catalog.MatchIndex | assets/pdp-init.js:67 | The index `find` stops at matches size, frame and "No Border". No earlier record matches, and there is none only when no record matches. |
| Catalog.MatchVariant | assets/pdp-init.js:114-116 | A found record is in the catalog and satisfies the predicate. There is none exactly when no record does. |
| Catalog.MatchIsFirst | assets/pdp-init.js:67 | The first record that satisfies the predicate is the one returned. |
| Catalog.MatchUnderUniqueness | assets/pdp-init.js:114-116 | When no two records share size, frame and border, any matching record is the one returned. |
| Catalog.ReachableMeans | assets/pdp-init.js:6-10 | A value is in the set exactly when some available record has the other group's active value and carries this value. |
| Catalog.ReachableUnset | assets/pdp-init.js:23-27 | When the other group has no active value, the set is empty, so there is no "all values" fallback. |
| Catalog.ReachableConcat | assets/pdp-init.js:6-10 | The set for a concatenated catalog is the union of the sets of its parts. |
| Catalog.CheapestUnique | assets/pdp-init.js:173-180 | Only one record is the first available record at the lowest price. |
| Picker.ActiveIndex | assets/pdp-init.js:106 | The button `querySelector` finds is the first active one, and there is none only when no button is active. |
| Picker.SelectedValue | assets/pdp-init.js:105-108 | There is no selection exactly when no button of the group is active. Otherwise the selection is the value of the button `querySelector` finds, the first active one. |
| Picker.SelectedIsFirstActive | assets/pdp-init.js:105-108 | A selection is the value of an active button with no active button before it. |
| Picker.SoleActiveIsSelected | assets/pdp-init.js:105-108 | When exactly one button is active, its value is the selection. |
| Picker.SelectionIgnoresFlags | assets/pdp-init.js:2-3 | Changing anything but values and `active` classes does not move the selection. |
| Picker.MarkAll | assets/pdp-init.js:11-20 | Each button keeps its value and `active` class. Its `disabled` property and `unavailable` class both say whether its value is outside the set. |
| Picker.MarkKeepsSelection | assets/pdp-init.js:28-37 | Marking a group leaves its selection where it was. |
| Picker.MarkAllIdempotent | assets/pdp-init.js:11-20 | Marking a group twice against the same set equals marking it once. |
| Picker.MarkedMeans | assets/pdp-init.js:5-37 | After marking, a button is disabled exactly when no available record has the other group's active value and this button's value. The border is ignored here. |
| Picker.ActivateOnly | assets/pdp-init.js:95-98 | After a click, the clicked button is the only active one. Values and the other flags are kept. |
| Picker.ClickSelects | assets/pdp-init.js:95-98 | After a click, the group's selection is the clicked value. |
| Picker.ActivateMatching | assets/pdp-init.js:184-197 | Exactly the buttons whose value equals the target are active. Values and the other flags are kept. |
| Picker.ActivateMatchingSelects | assets/pdp-init.js:184-197 | Activating by value selects that value when a button carries it, and leaves no selection otherwise. |
| Picker.ProjectSku | assets/pdp-init.js:59-85 | The view asks for options exactly when a value is missing or empty. A purchasable view holds the first match, which is in the catalog and available. |
| Picker.UnavailableMeansShadowed | assets/pdp-init.js:67-85 | A complete selection is "Unavailable" exactly when every available matching record comes after an unavailable matching record, or there is no match at all. |
| Picker.PurchasableIff | assets/pdp-init.js:67-79 | When no two records share size, frame and border, a selection is purchasable as `v` exactly when `v` is an available record that matches it. |
| Picker.PurchasableStaysEnabled | assets/pdp-init.js:6-10 | For a purchasable selection, its frame is reachable from its size and its size from its frame. |
| Steps.SkuStepProjects | assets/pdp-init.js:59-85 | `updateSkuPicker` writes the form according to the three-way projection of the selection. |
| Steps.ShowViewShows | assets/pdp-init.js:40-50 | Shows the price text, hidden id and add-to-cart state of each view. A purchasable view also fills every synced input and both line items with the record's id, size and frame. The other views leave those alone. |
| Steps.SkuStepLineItems | assets/pdp-init.js:75-76 | For a purchasable selection, the line items carry the selected size and frame. |
| Steps.SkuStepAnnounces | assets/pdp-init.js:59-89 | An incomplete selection announces nothing. A complete one stores its match, possibly none, dispatches exactly one event carrying it, and calls the hook once with Frame then Size when the hook exists. Buttons, gallery and listeners are untouched. |
| Steps.IncompleteSelectionShows | assets/pdp-init.js:59-65 | An incomplete selection clears the hidden id, disables add-to-cart when it exists, and shows "Select Options". Nothing else on the page changes. |
| Steps.AvailabilityStepFlags | assets/pdp-init.js:1-38 | Every button keeps its value, its `active` class and the group's selection. A button is disabled, and flagged unavailable, exactly when no available record pairs the other group's active value with its value. |
| Steps.GalleryStepShows | assets/pdp-init.js:110-128 | The record matched by the active values becomes the selected record, complete or not. Its id and price win. The containers are refreshed unless decoding throws. Nothing else changes. |
| Steps.RefreshKeepsActive | assets/pdp-init.js:99-101 | The three steps keep every button's value and `active` class. |
| Steps.RefreshKeepsSelection | assets/pdp-init.js:99-101 | The three steps never move either group's selection. |
| Steps.RefreshShows | assets/pdp-init.js:99-101 | Add-to-cart keeps what `updateSkuPicker` gave it. When a record matches, even an unavailable one, the id and price text are the gallery's. Otherwise they are `''` and the projection's label. One event is dispatched for a complete selection. The run throws exactly when the match's configuration is null. |
| Steps.ShowViewAbsorbs | assets/pdp-init.js:59-85 | Showing a view again on a form that already shows it, up to the id and price text the gallery may have overwritten, gives the same form. |
| Steps.AvailabilityRepeats | assets/pdp-init.js:1-38 | Running the availability step on buttons it has already marked, with the same selection, changes no button. |
| Steps.GalleryRepeats | assets/pdp-init.js:110-169 | Running the gallery step again with the same selection on containers it has refreshed throws exactly when the first run did, and leaves the containers as they are. |
| Steps.RefreshRepeats | assets/pdp-init.js:99-101 | When every container holds at most one overlay, a second refresh throws exactly when the first did and leaves the page as the first left it. Only the event and hook logs grow again. |
| Steps.RefreshEnablesPurchasable | assets/pdp-init.js:99-101 | When the selection is purchasable, the buttons carrying its size and frame stay enabled after the refresh. |
| Steps.ClickSelectsValue | assets/pdp-init.js:92-102 | After a click, the clicked group's selection is the clicked value, and the other group's selection is unchanged. |
| Steps.ClickActiveFlags | assets/pdp-init.js:92-102 | After a click, the clicked button is the only active one of its group, and the other group's `active` classes are unchanged. |
| Steps.BootActiveFlags | assets/pdp-init.js:182-203 | Startup activates exactly the buttons carrying the cheapest record's size and frame. With no available record, the page is exactly as it was except that the listeners are attached: no button changes, nothing is written or announced, and nothing throws. |
| Steps.BootSelectsCheapest | assets/pdp-init.js:171-209 | When the cheapest record's size and frame have buttons, they become the selection. The listeners are attached exactly when the refresh did not throw. |
| Steps.BootShowsCheapest | assets/pdp-init.js:171-203 | When no two records share size, frame and border, a cheapest record with no border and non-empty values is shown at its own price and id, with add-to-cart enabled. |
| Page.FindCheapest | assets/pdp-init.js:173-180 | The result is an available record that no available record undercuts, and the first at its price. There is none exactly when no record is available. |
| Page.ProductPage.constructor | assets/pdp-init.js:171 | The page holds the buttons, form sinks and containers it is given, which are whatever the markup has. No record is selected, no event or hook call is logged, and no listener is attached. |
| Page.ProductPage.MarkGroup | assets/pdp-init.js:11-20 | The loop leaves the group's buttons marked against the set, and changes nothing else. |
| Page.ProductPage.UpdateOptionAvailability | assets/pdp-init.js:1-38 | Performs the availability step. |
| Page.ProductPage.SyncHorizonVariantInput | assets/pdp-init.js:40-50 | The three loops leave every synced input holding the id, size or frame. Nothing else is written. |
| Page.ProductPage.ShowSku | assets/pdp-init.js:60-84 | Writes the form sinks of a view, calling the sync for a purchasable one. |
| Page.ProductPage.ShowMatch | assets/pdp-init.js:67-89 | Stores and announces the first match, shows it or "Unavailable", and calls the hook when it exists. |
| Page.ProductPage.UpdateSkuPicker | assets/pdp-init.js:52-90 | Performs `updateSkuPicker`'s step on the page. |
| Page.ProductPage.UpdateMockGalleryDOM | assets/pdp-init.js:129-170 | Either throws before touching a container, or the loop refreshes every container. |
| Page.ProductPage.UpdateMockGallery | assets/pdp-init.js:110-128 | Performs the gallery step and reports whether it threw. |
| Page.ProductPage.RefreshPicker | assets/pdp-init.js:99-101 | Runs the three steps in order. |
| Page.ProductPage.ActivateClicked | assets/pdp-init.js:95-98 | The loop clears `active` on every button of the group, then the clicked one gets it. |
| Page.ProductPage.HandleOptionClick | assets/pdp-init.js:92-102 | Performs a click on an attached listener. |
| Page.ProductPage.ActivateValue | assets/pdp-init.js:184-197 | The loop activates exactly the buttons with the target value. |
| Page.ProductPage.Startup | assets/pdp-init.js:171-209 | Finds the cheapest record, with the contract of `FindCheapest`, then performs the startup step. That step activates the record's buttons and runs the three steps only when a record exists. The listeners are attached unless the refresh threw. |

How the code behaves where a reader might expect otherwise. The model follows the code in each case:

- The first matching record wins, even if an identical record appears later (`Array.find`).
- With no active value in the other group, every button of a group is disabled. There is no "all values" fallback (`Catalog.ReachableUnset`).
- An incomplete selection dispatches no event and does not call the hook.
- The gallery runs last. For a matched but unavailable record, it writes the record's id and price over the cleared id and the "Unavailable" label (`Steps.RefreshShows`). Add-to-cart stays disabled.
- The gallery does not check that the selection is complete. A selection whose value is `''` can still match a record with an empty size or frame.
- Missing placement fields are written as `''`, which clears earlier styles.
- A `mock_config` that is `null`, or a string that parses to `null`, throws a `TypeError` at line 135. That aborts the refresh. At startup it also prevents the click listeners from being attached.
- The cheapest record is shown as purchasable only if its border is "No Border" (`Steps.BootShowsCheapest`). Otherwise the page resolves the selection to another record, or to none.

## Left out

- `assets/styles.js` (a carousel element over browser layout values) and `assets/image-loading-state.js` (mutation and intersection observers) are not part of this model.
- `console.log`, the construction of the `CustomEvent` object and the real hook are left out. An event is modelled as its `detail` appended to a log, and the hook as its argument appended to a log. The hook is assumed to return normally. A hook that throws would skip the availability and gallery steps that follow it, and at startup it would also prevent the click listeners from being attached. The model does not capture that.
- `JSON.parse` is a parameter of the page (`parse`), a function from text to a syntax error, an object, `null` or some other value. Its parsing is not modelled.
- `querySelector`, `querySelectorAll`, `closest` and `getElementById` are modelled as direct access to fields. The sinks the script dereferences without a guard are assumed present. Only the add-to-cart button is optional (`hasAddToCart`). The gallery's guarded `#sku-variant-id` and `#sku-price` are assumed present, like the sinks `updateSkuPicker` writes unguarded.
- Page.ProductPage: the NodeLists are `seq` fields the methods reassign, not shared DOM nodes. Aliasing between lists, such as one element matching two selectors, is not modelled.
- Page.ProductPage.HandleOptionClick: the clicked button is given as its group and index. The `closest('.button-group, .image-button-group')` lookup is assumed to find the clicked button's own picker. The model lets any button be clicked, disabled ones included. A browser does not deliver clicks to disabled buttons, so the model allows more clicks than a browser does, and every lemma about clicks holds for those extra clicks too.
- `window.ABSTRACT_VARIANTS` is assumed to be defined. Startup's `|| []` makes no difference once it is.
- Prices are integers. The script only compares them with `<`, so floating-point values and `NaN` are not modelled.
- `match.price_formatted || ''` and `x || ''` in the sync are modelled as the string itself. Every string field is a string, so `||` only differs for `undefined`, which is not modelled.
- Ids, sizes and frames are strings. `==` on them is Dafny's equality, with no JavaScript coercion between numbers and strings.
- The `alt` text and class name of a new overlay, and the commented-out `top` style, are not modelled. An overlay is its `src`.
