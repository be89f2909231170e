/** The script's main flow: fetch the quotes for the ten tickers, draw them,
    and build the signed upload form, stamped with the clock reading `now`
    in whole seconds. The image file handed from drawing to
    uploading is represented by the drawn tiles; the POST itself is not
    modelled. */
module Job {

  import opened Results
  import opened PyDict
  import opened Quotes
  import opened Tiles
  import opened Signature

  /** What one run produces: the drawn tiles and the form that is posted,
      or the exception drawing raised (the upload is then never reached).
      The ten tickers never yield more than ten entries, so drawing never runs
      out of positions: of the two exceptions the drawing loop raises
      (`IndexError`, `NameError`), only `NameError` can occur. */
  function DailyUpdate(histories: seq<seq<real>>, logos: set<Ticker>, now: nat, secret: string,
                       apiKey: string, sha1Hex: string -> string): (r: Result<(seq<Tile>, Dict<string, string>), RenderError>)
    requires |histories| == |Tickers| && PreviousClosesNonZero(histories)
    ensures r.Err? ==> r.error == NameError
    ensures r.Ok? ==> r.value.1 == UploadForm(Timestamp(now), secret, apiKey, sha1Hex)
  {
    var stockData := Fetched(Tickers, histories);
    FetchedSize(Tickers, histories);
    LayoutRows();
    RenderOutcome(Items(stockData), logos);
    match Render(Items(stockData), logos)
    case Err(e) => Err(e)
    case Ok(tiles) => Ok((tiles, UploadForm(Timestamp(now), secret, apiKey, sha1Hex)))
  }

  /** With a logo file for every ticker, drawing the fetched quotes raises
      nothing and draws one tile per ticker that had two closes, in
      ticker-list order. */
  lemma RenderFetched(histories: seq<seq<real>>, logos: set<Ticker>)
    requires |histories| == |Tickers| && PreviousClosesNonZero(histories)
    requires forall t :: t in Tickers ==> t in logos
    ensures var r := Render(Items(Fetched(Tickers, histories)), logos);
      && r.Ok?
      && Drawn(r.value, Items(Fetched(Tickers, histories)), logos)
      && |r.value| == |Kept(Tickers, histories)|
      && (forall k :: 0 <= k < |r.value| ==> r.value[k].ticker == Kept(Tickers, histories)[k])
  {
    var stockData := Fetched(Tickers, histories);
    var entries := Items(stockData);
    FetchedSize(Tickers, histories);
    TickersDistinct();
    FetchedOrder(Tickers, histories);
    LayoutRows();
    RenderOutcome(entries, logos);
    if |entries| > 0 {
      FetchedKeys(Tickers, histories, entries[0].0);
    }
  }

  /** With a logo file for every ticker the run raises nothing: it draws one
      tile per ticker that had two closes, in ticker-list order, and the form
      is posted. */
  lemma AllLogosPresent(histories: seq<seq<real>>, logos: set<Ticker>, now: nat, secret: string,
                        apiKey: string, sha1Hex: string -> string)
    requires |histories| == |Tickers| && PreviousClosesNonZero(histories)
    requires forall t :: t in Tickers ==> t in logos
    ensures var r := DailyUpdate(histories, logos, now, secret, apiKey, sha1Hex);
      && r.Ok?
      && Drawn(r.value.0, Items(Fetched(Tickers, histories)), logos)
      && |r.value.0| == |Kept(Tickers, histories)|
      && (forall k :: 0 <= k < |r.value.0| ==> r.value.0[k].ticker == Kept(Tickers, histories)[k])
  {
    RenderFetched(histories, logos);
  }

  /** A run that draws its image posts the current time, and the signature
      over the three fixed parameters and the secret. */
  lemma PostedForm(histories: seq<seq<real>>, logos: set<Ticker>, now: nat, secret: string,
                   apiKey: string, sha1Hex: string -> string)
    requires |histories| == |Tickers| && PreviousClosesNonZero(histories)
    requires DailyUpdate(histories, logos, now, secret, apiKey, sha1Hex).Ok?
    ensures var form := DailyUpdate(histories, logos, now, secret, apiKey, sha1Hex).value.1;
      && form.keys == ["overwrite", "public_id", "timestamp", "signature", "api_key"]
      && form.values["timestamp"] == Timestamp(now)
      && form.values["signature"] == sha1Hex(UploadSignedPrefix + Timestamp(now) + secret)
      && form.values["api_key"] == apiKey
  {
    UploadFormKeys(Timestamp(now), secret, apiKey, sha1Hex);
    UploadFormFields(Timestamp(now), secret, apiKey, sha1Hex);
    UploadFormSignature(Timestamp(now), secret, apiKey, sha1Hex);
  }
}
