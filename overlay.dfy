/** The mock-up overlay of the product gallery: decoding a variant's `mock_config`
    (assets/pdp-init.js:131-136) and refreshing one `.mockup-container`
    (assets/pdp-init.js:141-169). */
module Overlay {
  import opened Common

  /** The `artwork_placement` object of a mock configuration; any field may be missing. */
  datatype Placement = Placement(left: Option<string>, width: Option<string>, transform: Option<string>)

  /** A decoded mock configuration: `mock_image_url` and `artwork_placement`, each optional. */
  datatype MockConfig = MockConfig(mockImageUrl: Option<string>, artworkPlacement: Option<Placement>)

  /** The `{}` the code falls back to. */
  const EmptyConfig := MockConfig(None, None)

  /** What a variant's `mock_config` property holds. `Missing` stands for `undefined` and
      the other non-object primitives: `JSON.parse` either throws on them (caught) or
      yields a value without the two properties, so both read as the empty configuration. */
  datatype MockSource =
    | Structured(config: MockConfig)  // `typeof === 'object'` and not null: used as it is
    | Serialized(text: string)        // a string, handed to JSON.parse
    | NullConfig                      // null, whose `typeof` is also 'object'
    | Missing

  /** What JSON.parse makes of a string: a syntax error (thrown, and caught at line 134),
      an object, `null`, or any other JSON value (number, string, boolean, array),
      none of which carries the two properties read at lines 135-136. */
  datatype Parsed = SyntaxError | ParsedObject(config: MockConfig) | ParsedNull | ParsedOther

  /** The exception raised outside the `try`: reading `.mock_image_url` of null. */
  datatype Thrown = TypeError

  /** Lines 131-135: decode `mock_config` with `parse` standing for JSON.parse. A failed
      parse falls back to `{}`; a null configuration, stored or parsed, makes the property
      read on line 135 throw. */
  function Decode(src: MockSource, parse: string -> Parsed): (r: Result<MockConfig, Thrown>)
    ensures r.Err? <==> src.NullConfig? || (src.Serialized? && parse(src.text).ParsedNull?)
    ensures src.Structured? ==> r == Ok(src.config)
    ensures src.Serialized? && parse(src.text).ParsedObject? ==> r == Ok(parse(src.text).config)
    ensures src.Serialized? && parse(src.text).SyntaxError? ==> r == Ok(EmptyConfig)
    ensures r.Ok? && r.value != EmptyConfig ==>
              src.Structured? || (src.Serialized? && parse(src.text).ParsedObject?)
  {
    match src
    case Structured(c) => Ok(c)
    case NullConfig => Err(TypeError)
    case Missing => Ok(EmptyConfig)
    case Serialized(t) =>
      match parse(t)
      case SyntaxError => Ok(EmptyConfig)
      case ParsedObject(c) => Ok(c)
      case ParsedNull => Err(TypeError)
      case ParsedOther => Ok(EmptyConfig)
  }

  /** Line 135: `mockConfig.mock_image_url || ''`. */
  function OverlayUrl(c: MockConfig): string
  {
    OrEmpty(c.mockImageUrl)
  }

  /** Line 136: `mockConfig.artwork_placement || {}`. */
  function PlacementOf(c: MockConfig): Placement
  {
    match c.artworkPlacement
    case Some(p) => p
    case None => Placement(None, None, None)
  }

  /** The three inline style properties the code writes on the artwork element. */
  datatype ArtStyle = ArtStyle(left: string, width: string, transform: string)

  /** A `.mockup-container`: the `src` of each `.mockup-overlay` image inside it, in
      document order, and the style of its `.mockup-artwork` element if it has one. */
  datatype Container = Container(overlays: seq<string>, artwork: Option<ArtStyle>)

  /** The overlays left after `querySelector('.mockup-overlay')?.remove()`: all but the first. */
  function Rest(overlays: seq<string>): seq<string>
  {
    if |overlays| > 0 then overlays[1..] else []
  }

  /** Lines 143-168 for one container: the first overlay is removed, a new one with
      `src = url` is prepended when `url` is non-empty, and the artwork style is
      overwritten, a missing placement field clearing the property. */
  function RefreshContainer(c: Container, url: string, p: Placement): (r: Container)
    ensures |r.overlays| == |c.overlays| - (if |c.overlays| > 0 then 1 else 0) + (if url != "" then 1 else 0)
    ensures url != "" ==> r.overlays[0] == url
    ensures url != "" ==> r.overlays[1..] == Rest(c.overlays)
    ensures url == "" ==> r.overlays == Rest(c.overlays)
    ensures |c.overlays| <= 1 ==> r.overlays == (if url == "" then [] else [url])
    ensures r.artwork.Some? <==> c.artwork.Some?
    ensures r.artwork.Some? ==>
              r.artwork.value == ArtStyle(OrEmpty(p.left), OrEmpty(p.width), OrEmpty(p.transform))
  {
    var kept := Rest(c.overlays);
    var overlays := if url != "" then [url] + kept else kept;
    var artwork :=
      match c.artwork
      case Some(_) => Some(ArtStyle(OrEmpty(p.left), OrEmpty(p.width), OrEmpty(p.transform)))
      case None => None;
    Container(overlays, artwork)
  }

  /** The `forEach` of lines 141-169: every container refreshed with the same overlay and
      placement. */
  function RefreshAll(containers: seq<Container>, url: string, p: Placement): (r: seq<Container>)
    ensures |r| == |containers|
    ensures forall k :: 0 <= k < |r| ==> r[k] == RefreshContainer(containers[k], url, p)
  {
    seq(|containers|, k requires 0 <= k < |containers| => RefreshContainer(containers[k], url, p))
  }

  /** A container that holds at most one overlay keeps at most one, and refreshing it
      twice with the same configuration is the same as refreshing it once. */
  lemma RefreshIdempotent(c: Container, url: string, p: Placement)
    requires |c.overlays| <= 1
    ensures |RefreshContainer(c, url, p).overlays| <= 1
    ensures RefreshContainer(RefreshContainer(c, url, p), url, p) == RefreshContainer(c, url, p)
  {
    var once := RefreshContainer(c, url, p);
    var twice := RefreshContainer(once, url, p);
    assert twice.overlays == once.overlays;
    assert twice.artwork == once.artwork;
  }

  /** When every container holds at most one overlay, refreshing them all twice with the
      same configuration is the same as refreshing them once. */
  lemma RefreshAllIdempotent(containers: seq<Container>, url: string, p: Placement)
    requires forall k :: 0 <= k < |containers| ==> |containers[k].overlays| <= 1
    ensures RefreshAll(RefreshAll(containers, url, p), url, p) == RefreshAll(containers, url, p)
  {
    var once := RefreshAll(containers, url, p);
    forall k | 0 <= k < |once|
      ensures RefreshContainer(once[k], url, p) == once[k]
    {
      RefreshIdempotent(containers[k], url, p);
    }
  }

  /** A string that fails to parse leaves every container without an overlay it did not
      already have beyond the first, and clears the artwork's position, width and transform. */
  lemma MalformedConfigClears(c: Container, text: string, parse: string -> Parsed)
    requires parse(text).SyntaxError?
    ensures Decode(Serialized(text), parse).Ok?
    ensures var cfg := Decode(Serialized(text), parse).value;
            var r := RefreshContainer(c, OverlayUrl(cfg), PlacementOf(cfg));
            && r.overlays == Rest(c.overlays)
            && (r.artwork.Some? ==> r.artwork.value == ArtStyle("", "", ""))
  {
    var cfg := Decode(Serialized(text), parse).value;
    assert cfg == EmptyConfig;
    assert OverlayUrl(cfg) == "";
  }
}
