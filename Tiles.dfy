/** `generate_stock_image`: ten fixed tile rectangles on a 1080 by 650 canvas,
    filled in the order of the quotes dictionary, each coloured by its change,
    with an optional logo and three text lines (ticker, price, change).
    The raster itself is modelled as the list of tiles drawn into it; pixels,
    fonts and the saved file are not. */
module Tiles {

  import opened Results
  import opened Decimal
  import opened Quotes
  import opened PyDict

  const Width := 1080
  const Height := 650

  /** A rectangle (x1, y1, x2, y2) in canvas pixels. */
  datatype Rect = Rect(x1: int, y1: int, x2: int, y2: int)

  /** `int(x)` for a non-negative number: the whole part. */
  function Truncate(x: real): (n: int)
    requires x >= 0.0
    ensures 0 <= n && (n as real) <= x < (n as real) + 1.0
  {
    x.Floor
  }

  /** The layout as written: corners as fractions of the canvas size. */
  function Fractions(): (f: seq<(real, real, real, real)>)
    ensures |f| == 10
    ensures forall i :: 0 <= i < 10 ==> f[i].0 >= 0.0 && f[i].1 >= 0.0 && f[i].2 >= 0.0 && f[i].3 >= 0.0
  {
    var w, h := Width as real, Height as real;
    [ (0.0, h * 0.1, w * 0.3, h * 0.5),
      (w * 0.3, h * 0.1, w * 0.6, h * 0.5),
      (0.0, h * 0.5, w * 0.3, h * 0.9),
      (w * 0.3, h * 0.5, w * 0.6, h * 0.9),
      (w * 0.6, h * 0.1, w * 0.8, h * 0.41),
      (w * 0.8, h * 0.1, w, h * 0.41),
      (w * 0.6, h * 0.41, w * 0.8, h * 0.72),
      (w * 0.8, h * 0.41, w, h * 0.72),
      (w * 0.6, h * 0.72, w * 0.8, h * 0.9),
      (w * 0.8, h * 0.72, w, h * 0.9) ]
  }

  /** `positions`, after every corner is truncated to an integer. */
  function Positions(): (ps: seq<Rect>)
    ensures |ps| == 10
  {
    var f := Fractions();
    seq(10, i requires 0 <= i < 10 =>
      Rect(Truncate(f[i].0), Truncate(f[i].1), Truncate(f[i].2), Truncate(f[i].3)))
  }

  /** The rectangle lies on the canvas and has positive width and height. */
  predicate OnCanvas(r: Rect) {
    0 <= r.x1 < r.x2 <= Width && 0 <= r.y1 < r.y2 <= Height
  }

  /** The ten tile rectangles in canvas pixels. */
  const Layout: seq<Rect> := [
    Rect(0, 65, 324, 325), Rect(324, 65, 648, 325),
    Rect(0, 325, 324, 585), Rect(324, 325, 648, 585),
    Rect(648, 65, 864, 266), Rect(864, 65, 1080, 266),
    Rect(648, 266, 864, 468), Rect(864, 266, 1080, 468),
    Rect(648, 468, 864, 585), Rect(864, 468, 1080, 585) ]

  /** Truncating the fractional layout gives the integer table. */
  lemma PositionsAreLayout()
    ensures Positions() == Layout
  {
    var ps := Positions();
    forall i | 0 <= i < 10 ensures ps[i] == Layout[i] {
    }
  }


  /** Two rectangles share no interior point. */
  predicate InteriorsDisjoint(a: Rect, b: Rect) {
    a.x2 <= b.x1 || b.x2 <= a.x1 || a.y2 <= b.y1 || b.y2 <= a.y1
  }

  /** The tiles are on the canvas and no two of them overlap. */
  lemma LayoutIsTiling()
    ensures |Layout| == 10
    ensures forall i :: 0 <= i < |Layout| ==> OnCanvas(Layout[i])
    ensures forall i, j :: 0 <= i < j < |Layout| ==> InteriorsDisjoint(Layout[i], Layout[j])
  {
  }

  /** There are ten tiles, each with its top edge above its bottom edge: the
      part of `LayoutIsTiling` the drawing loop needs, stated alone so that
      the loop's proofs do not carry the pairwise disjointness facts. */
  lemma LayoutRows()
    ensures |Layout| == 10
    ensures forall i :: 0 <= i < |Layout| ==> Layout[i].y1 <= Layout[i].y2
  {
  }

  /** An RGB fill colour. */
  datatype Color = Color(r: int, g: int, b: int)

  const StrongGreen := Color(101, 249, 93)
  const StrongRed := Color(250, 103, 103)
  const LightGreen := Color(157, 247, 149)
  const LightRed := Color(252, 130, 130)
  const Neutral := Color(220, 220, 220)

  /** The fill for a change of `change` hundredths of a percent. The five
      classes are exactly the five ranges split at -0.5, 0 and 0.5. */
  function TileColor(change: int): (c: Color)
    ensures c == StrongGreen <==> change >= 50
    ensures c == StrongRed <==> change <= -50
    ensures c == LightGreen <==> 0 < change < 50
    ensures c == LightRed <==> -50 < change < 0
    ensures c == Neutral <==> change == 0
  {
    if change >= 50 then StrongGreen
    else if change <= -50 then StrongRed
    else if change > 0 && change < 50 then LightGreen
    else if change < 0 && change > -50 then LightRed
    else Neutral
  }

  /** `f"${price:.2f}"` */
  function PriceText(price: int): (s: string)
    ensures |s| >= 5 && s[0] == '$'
  {
    "$" + Hundredths(price)
  }

  /** `f"+{change:.2f}%"` for a change of zero or more, `f"{change:.2f}%"`
      otherwise. */
  function ChangeText(change: int): (s: string)
    ensures |s| >= 6 && s[|s| - 1] == '%'
    ensures s[0] == '+' <==> change >= 0
    ensures s[0] == '-' <==> change < 0
  {
    if change >= 0 then "+" + Hundredths(change) + "%" else Hundredths(change) + "%"
  }

  /** Reads a price back from its text. */
  function ParsePriceText(s: string): Option<int> {
    if s != [] && s[0] == '$' then ParseHundredths(s[1..]) else None
  }

  /** Reads a change back from its text. */
  function ParseChangeText(s: string): Option<int> {
    if |s| >= 2 && s[|s| - 1] == '%' then
      var body := s[..|s| - 1];
      if body[0] == '+' then
        match ParseHundredths(body[1..])
        case Some(v) => if v >= 0 then Some(v) else None
        case None => None
      else ParseHundredths(body)
    else None
  }

  /** The price text shows the stored price exactly. */
  lemma PriceTextRoundTrip(price: int)
    ensures ParsePriceText(PriceText(price)) == Some(price)
  {
    var s := PriceText(price);
    assert s[1..] == Hundredths(price);
    HundredthsRoundTrip(price);
  }

  /** The change text shows the stored change exactly, sign included. */
  lemma ChangeTextRoundTrip(change: int)
    ensures ParseChangeText(ChangeText(change)) == Some(change)
  {
    var s := ChangeText(change);
    HundredthsRoundTrip(change);
    if change >= 0 {
      assert s[..|s| - 1] == "+" + Hundredths(change);
      assert s[..|s| - 1][1..] == Hundredths(change);
    } else {
      assert s[..|s| - 1] == Hundredths(change);
    }
  }

  /** The only text read back as the price `p` is `PriceText(p)`. */
  lemma PriceTextUnique(s: string, p: int)
    requires ParsePriceText(s) == Some(p)
    ensures s == PriceText(p)
  {
    HundredthsUnique(s[1..], p);
    assert s == "$" + s[1..];
  }

  /** The only texts read back as the change `c` are `ChangeText(c)` and, for
      a change of zero or more, the same text without its `+`. */
  lemma ChangeTextUnique(s: string, c: int)
    requires ParseChangeText(s) == Some(c)
    ensures s == ChangeText(c) || (c >= 0 && s == Hundredths(c) + "%")
    ensures (s[0] == '+' <==> c >= 0) ==> s == ChangeText(c)
  {
    var body := s[..|s| - 1];
    assert s == body + "%";
    if body[0] == '+' {
      HundredthsUnique(body[1..], c);
      assert body == "+" + body[1..];
    } else {
      HundredthsUnique(body, c);
      assert s[0] == body[0];
    }
  }

  /** Text that pads the whole part with a zero is not what the formatter
      writes, and the readers refuse it: the round trips pin down the shortest
      whole part. */
  lemma PaddedTextsRejected()
    ensures ParsePriceText("$0123.40") == None
    ensures ParseChangeText("+00.50%") == None
  {
    var p := "0123.40";
    assert "$0123.40"[1..] == p && p[..|p| - 3] == "0123";
    var c := "+00.50";
    assert "+00.50%"[..6] == c && c[1..] == "00.50";
    var q := "00.50";
    assert q[..|q| - 3] == "00";
  }

  /** A price of 123.40 is shown as `$123.40`. */
  lemma PriceTextExample()
    ensures PriceText(12340) == "$123.40"
  {
    assert NatToString(12) == "12";
    assert NatToString(123) == "123";
    assert UnsignedHundredths(12340) == "123" + "." + "40";
  }

  /** No change is shown as `+0.00%`, a change of half a percent as
      `+0.50%`. */
  lemma ChangeTextExamplesUp()
    ensures ChangeText(0) == "+0.00%"
    ensures ChangeText(50) == "+0.50%"
  {
    assert NatToString(0) == "0";
    assert UnsignedHundredths(0) == "0" + "." + "00";
    assert UnsignedHundredths(50) == "0" + "." + "50";
  }

  /** A fall of 0.3 percent is shown as `-0.30%`. */
  lemma ChangeTextExampleDown()
    ensures ChangeText(-30) == "-0.30%"
  {
    assert NatToString(0) == "0";
    assert UnsignedHundredths(30) == "0" + "." + "30";
  }

  /** `round(h * 0.35)` for a tile height `h >= 0`: the logo's side. */
  function LogoSize(h: nat): (size: nat)
    ensures 100 * size - 50 <= 35 * h < 100 * size + 50
  {
    (h * 35 + 50) / 100
  }

  /** No tile height of the layout puts `0.35 h` exactly halfway between two
      whole numbers, so Python's round-half-to-even gives the same logo side as
      `LogoSize`. */
  lemma LogoSizeNoTies()
    ensures forall i :: 0 <= i < |Layout| ==> (Layout[i].y2 - Layout[i].y1) * 35 % 100 != 50
  {
  }

  /** `x1 + (x2 - x1 - w) // 2`: where a thing `w` wide starts when centred
      between `x1` and `x2` (Python's `//` rounds down, as does `/` here for
      a positive divisor). */
  function Centre(x1: int, x2: int, w: int): int {
    x1 + (x2 - x1 - w) / 2
  }

  /** Something no wider than the span fits inside it, and the space left of
      it is the space right of it, or one pixel less. */
  lemma CentreWithin(x1: int, x2: int, w: int)
    requires 0 <= w <= x2 - x1
    ensures var c := Centre(x1, x2, w);
      && x1 <= c && c + w <= x2
      && (c - x1) <= x2 - (c + w) <= (c - x1) + 1
  {
  }

  /** Where a logo is pasted, and its side. */
  datatype LogoBox = LogoBox(x: int, y: int, size: nat)

  /** The logo placement for a tile: side `round(0.35 h)`, centred
      horizontally, `h // 13` below the tile's top edge. */
  function LogoBoxIn(r: Rect): (b: LogoBox)
    requires r.y1 <= r.y2
  {
    var h := r.y2 - r.y1;
    var size := LogoSize(h);
    LogoBox(Centre(r.x1, r.x2, size), r.y1 + h / 13, size)
  }

  /** The box lies inside the rectangle. */
  predicate BoxInside(b: LogoBox, r: Rect) {
    r.x1 <= b.x && b.x + b.size <= r.x2 && r.y1 <= b.y && b.y + b.size <= r.y2
  }

  /** A logo fits inside any tile at least as wide as the logo is tall. */
  lemma LogoBoxInside(r: Rect)
    requires r.y1 <= r.y2 && LogoSize(r.y2 - r.y1) <= r.x2 - r.x1
    ensures BoxInside(LogoBoxIn(r), r)
  {
    var h := r.y2 - r.y1;
    CentreWithin(r.x1, r.x2, LogoSize(h));
    assert h / 13 + LogoSize(h) <= h;
  }

  /** Each of the ten tiles holds its logo. */
  lemma LogosFitLayout()
    ensures forall i :: 0 <= i < |Layout| ==> Layout[i].y1 <= Layout[i].y2 && BoxInside(LogoBoxIn(Layout[i]), Layout[i])
  {
    forall i | 0 <= i < |Layout| ensures Layout[i].y1 <= Layout[i].y2 && BoxInside(LogoBoxIn(Layout[i]), Layout[i]) {
      LogoBoxInside(Layout[i]);
    }
  }

  /** What is drawn for one entry: the filled rectangle, the logo if there is
      one, and the text for `ticker` and `quote` (see `Lines`), which starts
      below the logo box last computed (`logo_y + logo_size`). */
  datatype Tile = Tile(
    rect: Rect,
    fill: Color,
    logo: Option<LogoBox>,
    textTop: int,
    ticker: Ticker,
    quote: Quote)

  /** The three text lines of a tile, top to bottom: the ticker, the price
      and the change. Each line gives back what it shows. */
  function Lines(t: Tile): (lines: seq<string>)
    ensures |lines| == 3 && lines[0] == t.ticker
    ensures ParsePriceText(lines[1]) == Some(t.quote.price)
    ensures ParseChangeText(lines[2]) == Some(t.quote.change)
    ensures |lines[2]| >= 6 && (lines[2][0] == '+' <==> t.quote.change >= 0)
  {
    PriceTextRoundTrip(t.quote.price);
    ChangeTextRoundTrip(t.quote.change);
    [t.ticker, PriceText(t.quote.price), ChangeText(t.quote.change)]
  }

  /** The exceptions the loop can raise: an 11th entry has no position
      (`IndexError`); a first entry without a logo file reads `logo_y` before
      it is ever assigned (`UnboundLocalError`, a kind of `NameError`). */
  datatype RenderError = IndexError | NameError

  /** The state of the drawing loop: the tiles drawn so far and the logo box
      computed most recently. */
  datatype Progress = Progress(tiles: seq<Tile>, lastLogo: Option<LogoBox>)

  /** One pass of the loop body for `entry`, given which logo files exist. */
  function Step(p: Progress, entry: (Ticker, Quote), logos: set<Ticker>): Result<Progress, RenderError>
  {
    var i := |p.tiles|;
    if i >= |Layout| then Err(IndexError)
    else
      LayoutRows();
      var rect := Layout[i];
      var own := if entry.0 in logos then Some(LogoBoxIn(rect)) else None;
      var anchor := if own.Some? then own else p.lastLogo;
      if anchor.None? then Err(NameError)
      else
        var tile := Tile(rect, TileColor(entry.1.change), own, anchor.value.y + anchor.value.size, entry.0, entry.1);
        Ok(Progress(p.tiles + [tile], anchor))
  }

  /** A pass raises `IndexError` exactly when every position is taken, and
      `NameError` exactly when a position is free but neither this entry nor
      any earlier one had a logo; otherwise it appends one tile showing the
      entry, and a logo box is then known. */
  lemma StepOutcome(p: Progress, entry: (Ticker, Quote), logos: set<Ticker>)
    ensures var r := Step(p, entry, logos);
      && (r == Err(IndexError) <==> |p.tiles| >= |Layout|)
      && (r == Err(NameError) <==> |p.tiles| < |Layout| && entry.0 !in logos && p.lastLogo.None?)
      && (r.Ok? ==> && |r.value.tiles| == |p.tiles| + 1
                    && r.value.tiles == p.tiles + [r.value.tiles[|p.tiles|]]
                    && r.value.tiles[|p.tiles|].ticker == entry.0 && r.value.tiles[|p.tiles|].quote == entry.1
                    && r.value.lastLogo.Some?)
  {
    LayoutRows();
  }

  /** The pass for an entry that gets a tile: its rectangle is the next
      position, and its text sits below `anchor`, the logo box last computed. */
  lemma StepOk(p: Progress, entry: (Ticker, Quote), logos: set<Ticker>, own: Option<LogoBox>, anchor: LogoBox)
    requires |p.tiles| < |Layout| && Layout[|p.tiles|].y1 <= Layout[|p.tiles|].y2
    requires own == (if entry.0 in logos then Some(LogoBoxIn(Layout[|p.tiles|])) else None)
    requires Some(anchor) == (if own.Some? then own else p.lastLogo)
    ensures Step(p, entry, logos) == Ok(Progress(p.tiles + [Tile(Layout[|p.tiles|], TileColor(entry.1.change), own,
      anchor.y + anchor.size, entry.0, entry.1)], Some(anchor)))
  {
  }

  /** The loop run over `entries`, first to last, stopping at the first
      exception. */
  function RenderPrefix(entries: seq<(Ticker, Quote)>, logos: set<Ticker>): (r: Result<Progress, RenderError>)
    decreases |entries|
  {
    if entries == [] then Ok(Progress([], None))
    else
      match RenderPrefix(entries[..|entries| - 1], logos)
      case Err(e) => Err(e)
      case Ok(p) => Step(p, entries[|entries| - 1], logos)
  }

  /** When the loop finishes, it has drawn one tile per entry, and never more
      tiles than there are positions. */
  lemma {:induction false} RenderPrefixLength(entries: seq<(Ticker, Quote)>, logos: set<Ticker>)
    ensures RenderPrefix(entries, logos).Ok? ==> |RenderPrefix(entries, logos).value.tiles| == |entries| <= |Layout|
    decreases |entries|
  {
    if entries != [] {
      RenderPrefixLength(entries[..|entries| - 1], logos);
      match RenderPrefix(entries[..|entries| - 1], logos)
      case Err(_) =>
      case Ok(p) => StepOutcome(p, entries[|entries| - 1], logos);
    }
  }

  /** The tiles of the finished image, or the exception raised. A finished
      image has one tile per entry, and at most ten. */
  function Render(entries: seq<(Ticker, Quote)>, logos: set<Ticker>): (r: Result<seq<Tile>, RenderError>)
    ensures r.Ok? ==> |r.value| == |entries| <= |Layout|
  {
    RenderPrefixLength(entries, logos);
    match RenderPrefix(entries, logos)
    case Err(e) => Err(e)
    case Ok(p) => Ok(p.tiles)
  }

  /** Once the loop has raised, the run raises the same exception. */
  lemma {:induction false} RenderErrorPersists(entries: seq<(Ticker, Quote)>, logos: set<Ticker>, n: nat)
    requires n <= |entries| && RenderPrefix(entries[..n], logos).Err?
    ensures RenderPrefix(entries, logos) == RenderPrefix(entries[..n], logos)
    decreases |entries| - n
  {
    if n < |entries| {
      assert entries[..n + 1][..n] == entries[..n];
      RenderErrorPersists(entries, logos, n + 1);
    } else {
      assert entries[..n] == entries;
    }
  }

  /** `generate_stock_image(stock_data)`, given which tickers have a logo
      file: the tiles drawn for the items of `stock_data` in insertion order,
      or the exception raised. */
  method GenerateStockImage(stockData: Dict<Ticker, Quote>, logos: set<Ticker>) returns (r: Result<seq<Tile>, RenderError>)
    requires stockData.Valid()
    ensures r == Render(Items(stockData), logos)
  {
    var entries := Items(stockData);
    var positions := Layout;
    LayoutRows();
    var tiles: seq<Tile> := [];
    var lastLogo: Option<LogoBox> := None;
    for i := 0 to |entries|
      invariant |tiles| == i
      invariant RenderPrefix(entries[..i], logos) == Ok(Progress(tiles, lastLogo))
    {
      assert entries[..i + 1][..i] == entries[..i];
      if i >= |positions| {
        RenderErrorPersists(entries, logos, i + 1);
        return Err(IndexError);
      }
      var next := DrawEntry(Progress(tiles, lastLogo), entries[i], logos);
      if next.Err? {
        RenderErrorPersists(entries, logos, i + 1);
        return Err(next.error);
      }
      tiles, lastLogo := next.value.tiles, next.value.lastLogo;
    }
    assert entries[..|entries|] == entries;
    r := Ok(tiles);
  }

  /** The body of the loop for one entry while a position is free: the
      tile at the next position in the colour of its change, the logo box
      when the ticker has a logo file, and the text below the logo box
      computed last. */
  method DrawEntry(p: Progress, entry: (Ticker, Quote), logos: set<Ticker>) returns (r: Result<Progress, RenderError>)
    requires |p.tiles| < |Layout|
    ensures r == Step(p, entry, logos)
    ensures r.Ok? ==> |r.value.tiles| == |p.tiles| + 1
  {
    var (ticker, data) := entry;
    LayoutRows();
    var rect := Layout[|p.tiles|];
    var color := TileColor(data.change);
    var logo: Option<LogoBox> := None;
    var lastLogo := p.lastLogo;
    if ticker in logos {
      logo := Some(LogoBoxIn(rect));
      lastLogo := logo;
    }
    if lastLogo.None? {
      return Err(NameError);
    }
    var textTop := lastLogo.value.y + lastLogo.value.size;
    var tile := Tile(rect, color, logo, textTop, ticker, data);
    StepOk(p, entry, logos, logo, lastLogo.value);
    r := Ok(Progress(p.tiles + [tile], lastLogo));
  }

  /** Tile `k` is what the loop draws for `entry`: the k-th position, the
      colour of its change, its own logo exactly when the ticker has a logo
      file, and its text below its own logo or, without one, at the same
      height as the tile before it. */
  predicate TileDrawn(tiles: seq<Tile>, k: nat, entry: (Ticker, Quote), logos: set<Ticker>)
    requires k < |tiles| && k < |Layout|
  {
    LayoutRows();
    var t := tiles[k];
    && t.rect == Layout[k]
    && t.fill == TileColor(entry.1.change)
    && t.ticker == entry.0 && t.quote == entry.1
    && t.logo == (if entry.0 in logos then Some(LogoBoxIn(Layout[k])) else None)
    && (t.logo.Some? ==> t.textTop == t.logo.value.y + t.logo.value.size)
    && (t.logo.None? ==> k > 0 && t.textTop == tiles[k - 1].textTop)
  }

  /** One tile per entry, each drawn as `TileDrawn` says. */
  predicate Drawn(tiles: seq<Tile>, entries: seq<(Ticker, Quote)>, logos: set<Ticker>) {
    && |tiles| == |entries| <= |Layout|
    && forall k :: 0 <= k < |tiles| ==> TileDrawn(tiles, k, entries[k], logos)
  }

  /** While the first ticker has a logo and positions remain, the loop
      raises nothing and has drawn every entry so far. */
  lemma {:induction false} RenderPrefixDrawn(entries: seq<(Ticker, Quote)>, logos: set<Ticker>, n: nat)
    requires n <= |entries| && n <= |Layout|
    requires n > 0 ==> entries[0].0 in logos
    ensures RenderPrefix(entries[..n], logos).Ok?
    ensures var p := RenderPrefix(entries[..n], logos).value;
      && Drawn(p.tiles, entries[..n], logos)
      && (n == 0 <==> p.lastLogo.None?)
      && (n > 0 ==> p.tiles[n - 1].textTop == p.lastLogo.value.y + p.lastLogo.value.size)
  {
    LayoutRows();
    if n > 0 {
      RenderPrefixDrawn(entries, logos, n - 1);
      assert entries[..n][..n - 1] == entries[..n - 1];
      var p := RenderPrefix(entries[..n - 1], logos).value;
      var entry := entries[n - 1];
      var own := if entry.0 in logos then Some(LogoBoxIn(Layout[n - 1])) else None;
      var anchor := if own.Some? then own else p.lastLogo;
      assert anchor.Some?;
      StepOk(p, entry, logos, own, anchor.value);
      var tiles := RenderPrefix(entries[..n], logos).value.tiles;
      assert tiles == p.tiles + [tiles[n - 1]];
      forall k | 0 <= k < n ensures TileDrawn(tiles, k, entries[..n][k], logos) {
        if k < n - 1 {
          assert TileDrawn(p.tiles, k, entries[..n - 1][k], logos);
          assert tiles[k] == p.tiles[k];
          if k > 0 {
            assert tiles[k - 1] == p.tiles[k - 1];
          }
        }
      }
    }
  }

  /** How a run ends, decided by the entries alone: a first ticker without a
      logo file raises `NameError`; otherwise more than ten entries raise
      `IndexError`; otherwise every entry is drawn. */
  lemma RenderOutcome(entries: seq<(Ticker, Quote)>, logos: set<Ticker>)
    ensures |entries| > 0 && entries[0].0 !in logos ==> Render(entries, logos) == Err(NameError)
    ensures (|entries| == 0 || entries[0].0 in logos) && |entries| > |Layout| ==> Render(entries, logos) == Err(IndexError)
    ensures (|entries| == 0 || entries[0].0 in logos) && |entries| <= |Layout| ==>
      Render(entries, logos).Ok? && Drawn(Render(entries, logos).value, entries, logos)
  {
    LayoutRows();
    if |entries| > 0 && entries[0].0 !in logos {
      assert entries[..1][..0] == [];
      assert RenderPrefix(entries[..1], logos) == Err(NameError);
      RenderErrorPersists(entries, logos, 1);
    } else if |entries| > |Layout| {
      RenderPrefixDrawn(entries, logos, |Layout|);
      assert entries[..|Layout| + 1][..|Layout|] == entries[..|Layout|];
      assert RenderPrefix(entries[..|Layout| + 1], logos) == Err(IndexError);
      RenderErrorPersists(entries, logos, |Layout| + 1);
    } else {
      RenderPrefixDrawn(entries, logos, |entries|);
      assert entries[..|entries|] == entries;
    }
  }
}
