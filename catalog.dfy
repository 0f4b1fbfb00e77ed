/** The variant catalog `window.ABSTRACT_VARIANTS` and the pure questions the picker asks
    of it: which record a (size, frame) pair resolves to (assets/pdp-init.js:67, 114-116),
    which values of one option group stay selectable given the other group's value
    (assets/pdp-init.js:6-10, 23-27), and which available record is cheapest
    (assets/pdp-init.js:173-180). */
module Catalog {
  import opened Common
  import opened Overlay

  /** One catalog record. `price` is only ever compared with `<`, so an integer stands
      for the JavaScript number. */
  datatype Variant = Variant(
    id: string,
    size: string,
    frame: string,
    border: string,
    available: bool,
    price: int,
    priceFormatted: string,
    mockConfig: MockSource)

  /** The two option groups, `#sku-size-picker` and `#sku-frame-picker`. */
  datatype Group = Size | Frame

  function Other(g: Group): Group
  {
    match g
    case Size => Frame
    case Frame => Size
  }

  /** The value a record has in group `g`. */
  function ValueIn(v: Variant, g: Group): string
  {
    match g
    case Size => v.size
    case Frame => v.frame
  }

  /** The only border the picker and the gallery resolve against. */
  const NoBorder: string := "No Border"

  /** The predicate handed to `find`: equal size, equal frame, border "No Border".
      A selection is `None` when its group has no active button; no record matches it. */
  predicate IsMatch(v: Variant, size: Option<string>, frame: Option<string>)
  {
    Some(v.size) == size && Some(v.frame) == frame && v.border == NoBorder
  }

  /** The index `Array.prototype.find` stops at: the lowest one whose record satisfies
      `IsMatch`, or none when no record does. */
  function MatchIndex(catalog: seq<Variant>, size: Option<string>, frame: Option<string>): (r: Option<nat>)
    ensures r.Some? ==> r.value < |catalog| && IsMatch(catalog[r.value], size, frame)
    ensures r.Some? ==> forall j :: 0 <= j < r.value ==> !IsMatch(catalog[j], size, frame)
    ensures r.None? ==> forall j :: 0 <= j < |catalog| ==> !IsMatch(catalog[j], size, frame)
  {
    if |catalog| == 0 then None
    else if IsMatch(catalog[0], size, frame) then Some(0)
    else
      match MatchIndex(catalog[1..], size, frame)
      case None => None
      case Some(k) => Some(k + 1)
  }

  /** `ABSTRACT_VARIANTS.find(...)` (lines 67 and 114-116): the first record satisfying
      `IsMatch`, or none. */
  function MatchVariant(catalog: seq<Variant>, size: Option<string>, frame: Option<string>): (r: Option<Variant>)
    ensures r.Some? ==> r.value in catalog && IsMatch(r.value, size, frame)
    ensures r.None? <==> forall v :: v in catalog ==> !IsMatch(v, size, frame)
  {
    match MatchIndex(catalog, size, frame)
    case Some(i) => Some(catalog[i])
    case None => None
  }

  /** Whichever record satisfies the predicate first is the one returned, duplicates
      later in the catalog notwithstanding. */
  lemma MatchIsFirst(catalog: seq<Variant>, size: Option<string>, frame: Option<string>, i: nat)
    requires i < |catalog| && IsMatch(catalog[i], size, frame)
    requires forall j :: 0 <= j < i ==> !IsMatch(catalog[j], size, frame)
    ensures MatchIndex(catalog, size, frame) == Some(i)
    ensures MatchVariant(catalog, size, frame) == Some(catalog[i])
  {
  }

  /** The catalog invariant the design assumes: no two records share size, frame and border. */
  ghost predicate UniqueOptions(catalog: seq<Variant>)
  {
    forall i, j :: 0 <= i < j < |catalog| ==>
      catalog[i].size != catalog[j].size || catalog[i].frame != catalog[j].frame ||
      catalog[i].border != catalog[j].border
  }

  /** Under the catalog invariant, any record that satisfies the predicate is the match. */
  lemma MatchUnderUniqueness(catalog: seq<Variant>, size: Option<string>, frame: Option<string>, k: nat)
    requires UniqueOptions(catalog)
    requires k < |catalog| && IsMatch(catalog[k], size, frame)
    ensures MatchVariant(catalog, size, frame) == Some(catalog[k])
  {
    forall j | 0 <= j < k
      ensures !IsMatch(catalog[j], size, frame)
    {
      assert catalog[j].size != catalog[k].size || catalog[j].frame != catalog[k].frame ||
             catalog[j].border != catalog[k].border;
    }
    MatchIsFirst(catalog, size, frame, k);
  }

  /** A record counts towards the selectable values of group `g` when it is available
      and its value in the other group is the active one (`other`). */
  predicate Feeds(v: Variant, g: Group, other: Option<string>)
  {
    v.available && Some(ValueIn(v, Other(g))) == other
  }

  /** `new Set(ABSTRACT_VARIANTS.filter(...).map(...))`: the values of group `g` found in
      the records that feed it, given the other group's active value `other`. */
  function Reachable(catalog: seq<Variant>, g: Group, other: Option<string>): set<string>
  {
    if |catalog| == 0 then {}
    else
      (if Feeds(catalog[0], g, other) then {ValueIn(catalog[0], g)} else {})
      + Reachable(catalog[1..], g, other)
  }

  /** A value is reachable exactly when some record that feeds the group carries it. */
  lemma {:induction false} ReachableMeans(catalog: seq<Variant>, g: Group, other: Option<string>, x: string)
    ensures x in Reachable(catalog, g, other) <==>
            exists v :: v in catalog && Feeds(v, g, other) && ValueIn(v, g) == x
  {
    if |catalog| > 0 {
      ReachableMeans(catalog[1..], g, other, x);
      assert catalog == [catalog[0]] + catalog[1..];
      if x in Reachable(catalog, g, other) && !(Feeds(catalog[0], g, other) && ValueIn(catalog[0], g) == x) {
        var v :| v in catalog[1..] && Feeds(v, g, other) && ValueIn(v, g) == x;
        assert v in catalog;
      }
    }
  }

  /** With no active value in the other group, nothing is reachable: the filter compares
      every record's value with `undefined`, and there is no "all values" fallback. */
  lemma {:induction false} ReachableUnset(catalog: seq<Variant>, g: Group)
    ensures Reachable(catalog, g, None) == {}
  {
    if |catalog| > 0 {
      ReachableUnset(catalog[1..], g);
    }
  }

  /** The selectable values of a concatenated catalog are the union of those of its parts:
      adding records can only grow the sets, removing them can only shrink them. */
  lemma {:induction false} ReachableConcat(a: seq<Variant>, b: seq<Variant>, g: Group, other: Option<string>)
    ensures Reachable(a + b, g, other) == Reachable(a, g, other) + Reachable(b, g, other)
  {
    if |a| > 0 {
      assert (a + b)[1..] == a[1..] + b;
      ReachableConcat(a[1..], b, g, other);
    } else {
      assert a + b == b;
    }
  }

  /** `k` is the cheapest available record among the first `n`, and the first of them
      at that price. */
  ghost predicate IsCheapestAmong(catalog: seq<Variant>, n: nat, k: nat)
    requires n <= |catalog|
  {
    && k < n
    && catalog[k].available
    && (forall j :: 0 <= j < n && catalog[j].available ==> catalog[k].price <= catalog[j].price)
    && (forall j :: 0 <= j < k && catalog[j].available ==> catalog[k].price < catalog[j].price)
  }

  ghost predicate IsCheapest(catalog: seq<Variant>, k: nat)
  {
    IsCheapestAmong(catalog, |catalog|, k)
  }

  /** The cheapest-first record is determined by the catalog alone. */
  lemma CheapestUnique(catalog: seq<Variant>, k1: nat, k2: nat)
    requires IsCheapest(catalog, k1) && IsCheapest(catalog, k2)
    ensures k1 == k2
  {
  }
}
