# Daily stock tile job — verified model

The job in `main.py` runs once a day in three steps:

1. It fetches the last two closing prices of ten tickers.
2. It draws a 1080 × 650 image with one coloured tile per fetched quote, at most ten. Each tile shows the ticker, the price and the percentage change, and the ticker's logo when its file exists.
3. It uploads the image to a media host in a request signed with SHA-1 over the sorted parameters and a shared secret.

This project models the deterministic logic of those steps in Dafny and proves what it promises.

Modules:

- `Results`: the `Option` and `Result` types.
- `PyDict`: a Python `dict`. Keys keep insertion order, and assigning an existing key replaces its value in place.
- `Decimal`: `str(n)` for a natural number, and `"{:.2f}"` for an amount held as whole hundredths. Each has a parser beside it and a proved round trip.
- `StringOrder`: Python's `<` on strings (code point by code point, a proper prefix first) and `sorted`.
- `Quotes`: `fetch_stock_data`. The market-data call is replaced by the list of closing prices it returned for each ticker. The method with its loop is proved equal to a fold over the ticker list.
- `Tiles`: `generate_stock_image`.
  - The layout table, the colour rule, the price and change texts, and the logo size and centring arithmetic.
  - The drawing loop, with the exceptions it can raise.
  - The raster is represented by the list of tiles drawn into it.
- `Signature`: `generate_signature` and the form `upload_image` posts. The SHA-1 digest is a parameter `sha1Hex`.
- `Job`: the main block, from the closing prices and the clock reading to the tiles and the posted form.

Prices and changes are held as integer hundredths, because `fetch_stock_data` rounds both to two decimals. With that, the colour thresholds ±0.5 are exactly ±50.

Two behaviours of the code may be unexpected. The model follows the code in both:

- **More than ten entries.** One might expect entries beyond the tenth to be dropped. The code reads `positions[i]` for every entry, so an eleventh entry raises `IndexError`. `Tiles.RenderOutcome` states when this happens. `Job.DailyUpdate` shows it cannot happen in the job itself, which fetches at most ten tickers: of the two exceptions the drawing loop raises (`IndexError`, `NameError`), only `NameError` can occur.
- **Missing logo.** One might expect a tile without a logo file to be drawn without one. In the code, the text position still uses `logo_y` and `logo_size`, which are assigned only when the logo exists.
  - A later tile without a logo therefore puts its text at the height of the last logo computed.
  - A first tile without a logo raises `UnboundLocalError`, a kind of `NameError`.
  - `Tiles.TileDrawn` and `Tiles.RenderOutcome` state both.

## Model

| member | source | states |
|---|---|---|
| PyDict.Insert | main.py:28 | assigning a key keeps the dictionary well formed; the value map gets the new value; the key order is unchanged for an existing key, and a new key goes at the end |
| PyDict.Items | main.py:53 | `items()` lists every key once, in insertion order, with its value |
| Quotes.RoundHundredths | main.py:28 | `round(x, 2)` as hundredths is within half a hundredth of `x` |
| Quotes.QuoteOf | main.py:24-28 | the stored price is the last close, and the change the percentage move from the close before it, each to the nearest hundredth |
| Quotes.QuoteOfLastTwo | main.py:25-26 | only the final two closes of a history decide the quote |
| Quotes.ChangeFollowsPrice | main.py:27-28 | with a positive previous close, a rise gives a change of zero or more and a fall a change of zero or less |
| Quotes.Fetched | main.py:19-29 | the fold over the ticker list builds a well-formed dictionary, each key once with one value; `FetchedKeys`, `FetchedValue`, `FetchedOrder` and `FetchedSize` state what it holds |
| Quotes.FetchStockData | main.py:19-29 | the loop builds the dictionary given by the fold `Fetched` over the ticker list |
| Quotes.FetchedKeys | main.py:21-28 | a ticker is in the result exactly when one of its occurrences came with at least two closes |
| Quotes.FetchedSize | main.py:21-29 | the result never has more entries than the ticker list |
| Quotes.FetchedValue | main.py:28 | a ticker's entry is the quote of its last occurrence with two closes |
| Quotes.FetchedOrder | main.py:20-29 | for a list without repeats, the result's keys are the tickers with two closes, in list order |
| Quotes.TickersDistinct | main.py:16 | the job's ticker list has ten different tickers |
| Tiles.Truncate | main.py:51 | `int(x)` of a non-negative number is its whole part |
| Tiles.PositionsAreLayout | main.py:34-51 | truncating the fractional layout gives the ten integer rectangles of `Layout` |
| Tiles.LayoutIsTiling | main.py:34-51 | every rectangle lies on the 1080 × 650 canvas with positive width and height, and no two overlap |
| Tiles.TileColor | main.py:55-64 | each of the five colours is chosen exactly on its own range of the change, split at -0.50, 0 and 0.50 |
| Tiles.PriceText | main.py:83 | the price text starts with `$` |
| Tiles.ChangeText | main.py:84-87 | the change text ends in `%` and starts with `+` exactly when the change is zero or more, with `-` otherwise |
| Tiles.PriceTextRoundTrip | main.py:83 | the price is read back exactly from its text |
| Tiles.ChangeTextRoundTrip | main.py:84-87 | the change, with its sign, is read back exactly from its text |
| Tiles.PriceTextExample | main.py:83 | a price of 123.40 reads `$123.40` |
| Tiles.ChangeTextExamplesUp | main.py:84-85 | changes of 0 and 0.50 read `+0.00%` and `+0.50%` |
| Tiles.ChangeTextExampleDown | main.py:86-87 | a change of -0.30 reads `-0.30%` |
| Tiles.LogoSize | main.py:70 | the logo side is `0.35 h` rounded to the nearest whole pixel |
| Tiles.LogoSizeNoTies | main.py:70 | no tile height of the layout makes that rounding a tie |
| Tiles.CentreWithin | main.py:73 | `x1 + (x2 - x1 - w) // 2` keeps something `w` wide inside the span, with at most one pixel more space on the right |
| Tiles.LogoBoxInside | main.py:70-74 | the logo box, centred horizontally and `h // 13` below the top, lies inside a tile at least as wide as the logo is tall |
| Tiles.LogosFitLayout | main.py:38-51 | every one of the ten tiles holds its logo |
| Tiles.Lines | main.py:82-87 | a tile's three text lines are the ticker, then text that gives back the price, then text that gives back the change and starts with `+` exactly when the change is zero or more |
| Tiles.PriceTextUnique | main.py:83 | the only text read back as a price is the text the formatter writes for that price |
| Tiles.ChangeTextUnique | main.py:84-87 | the only texts read back as a change are the formatter's text for it and, for a change of zero or more, that text without its `+`; with the sign agreeing with the change, it is the formatter's text |
| Tiles.PaddedTextsRejected | main.py:83-87 | the two padded texts `$0123.40` and `+00.50%` are refused |
| Tiles.StepOutcome | main.py:53-94 | one pass raises `IndexError` exactly when all ten positions are taken, and `NameError` exactly when a position is free but neither this ticker nor an earlier one had a logo file; otherwise it appends one tile for this ticker and its quote, and a logo box is known from then on |
| Tiles.RenderPrefixLength | main.py:53-94 | a loop that has run over some entries without raising has drawn one tile per entry, and never more than ten |
| Tiles.Render | main.py:53-94 | a finished image has one tile per item of `stock_data`, and at most ten |
| Tiles.RenderErrorPersists | main.py:53-54 | once the loop has raised, the whole call raises the same exception |
| Tiles.GenerateStockImage | main.py:33-94 | the drawing loop yields the tiles, or the exception, of the fold `Render` over the dictionary's items |
| Tiles.RenderPrefixDrawn | main.py:53-94 | while the first ticker has a logo and positions remain, every entry so far is drawn as `TileDrawn` says |
| Tiles.RenderOutcome | main.py:53-94 | a first ticker without a logo raises `NameError`; otherwise more than ten entries raise `IndexError`; otherwise every entry is drawn at its position |
| StringOrder.LessTransitive | main.py:103 | Python's string order is transitive |
| StringOrder.LessTotal | main.py:103 | any two different strings are ordered one way or the other |
| StringOrder.Sort | main.py:103 | `sorted` returns an ascending permutation of its input |
| StringOrder.SortDistinct | main.py:103 | sorting distinct keys lists each exactly once, strictly ascending |
| StringOrder.StrictlySortedUnique | main.py:103 | two strictly ascending lists with the same elements are equal |
| Decimal.NatToStringRoundTrip | main.py:115 | `str(n)` is a non-empty digit string, with no leading zero unless it is `0`, whose value is `n` |
| Decimal.UnsignedHundredths | main.py:83-87 | `"{:.2f}"` of a non-negative amount is `str` of its whole part, a point, and two digits: the whole part has no leading zero |
| Decimal.HundredthsRoundTrip | main.py:83-87 | the two-decimal text of an amount parses back to the amount |
| Decimal.HundredthsInjective | main.py:83-87 | different amounts give different texts |
| Decimal.CanonicalUnique | main.py:83-87 | the only digit string without a superfluous leading zero whose value is `n` is `str(n)` |
| Decimal.UnsignedUnique | main.py:83-87 | the only text read back as a non-negative amount is the two-decimal text of that amount |
| Decimal.HundredthsUnique | main.py:83-87 | the only text read back as an amount is the two-decimal text of that amount |
| Signature.SortedKeys | main.py:103 | `sorted(data)` lists the dictionary's keys once each, strictly ascending |
| Signature.JoinAppend | main.py:103 | `sep.join` of one more part is the join so far, the separator and the part; of a single part, the part itself |
| Signature.SignedText | main.py:103-104 | the signed text ends with the secret; `InsertionOrderIrrelevant` and `UploadSignedText` state the `key=value` part before it |
| Signature.SameContentsSameText | main.py:102-104 | every dictionary with the same keys and values gives the same signed text |
| Signature.GenerateSignature | main.py:102-106 | the signature is the digest of the signed text of any dictionary with the same contents, so insertion order never changes it |
| Signature.InsertionOrderIrrelevant | main.py:102-104 | the signed text, and so the signature, depends only on the dictionary's contents, not on insertion order |
| Signature.Timestamp | main.py:115 | the timestamp is a digit string whose value is the clock reading in whole seconds |
| Signature.UploadParams | main.py:112-116 | the dictionary holds overwrite, public_id and timestamp, in that order, with the values `true`, `daily_stock_update` and the timestamp |
| Signature.UploadForm | main.py:112-118 | the posted form is a well-formed dictionary; `UploadFormKeys`, `UploadFormFields` and `UploadFormSignature` state its fields |
| Signature.UploadParamsContents | main.py:112-116 | the parameters have the values `true`, `daily_stock_update` and the timestamp, and do not yet include signature or api_key |
| Signature.UploadKeysSorted | main.py:112-116 | the upload keys sort as overwrite, public_id, timestamp |
| Signature.UploadSignedText | main.py:103-117 | the signed upload text is `overwrite=true&public_id=daily_stock_update&timestamp=` + timestamp + secret |
| Signature.UploadFormKeys | main.py:112-118 | the posted form holds overwrite, public_id, timestamp, signature and api_key, in that order |
| Signature.UploadFormFields | main.py:112-118 | the posted values are the three parameters unchanged, the API key, and a signature computed over the first three fields only |
| Signature.UploadFormSignature | main.py:117 | the signature sent is the digest of the fixed prefix, the timestamp and the secret |
| Job.DailyUpdate | main.py:133-136 | whatever the prices and logo files, of the two exceptions the drawing loop raises only `NameError` can occur, never `IndexError`; a run that draws its image posts the form for the current clock reading |
| Job.RenderFetched | main.py:134-135 | with a logo file for every ticker, drawing the fetched quotes raises nothing and draws one tile per ticker with two closes, in ticker-list order |
| Job.AllLogosPresent | main.py:133-136 | with a logo file for every ticker, the run raises nothing and draws one tile per ticker with two closes, in ticker-list order |
| Job.PostedForm | main.py:133-136 | a run that draws its image posts the current time and the signature over the fixed parameters and the secret |

## Left out

- Market data: the yfinance call (main.py:22-23) is replaced by the list of closing prices per ticker. A failing call, which aborts the run, is not modelled.
- Job.DailyUpdate: exceptions other than those of the drawing loop are not modelled. A missing `fonts/arial-bold.ttf` makes `ImageFont.truetype` (main.py:79-80) raise `OSError` on the first tile. An unset `API_SECRET` leaves `os.getenv` (main.py:14) returning `None`, and the concatenation at main.py:104 then raises `TypeError`. The model takes the font file as present and the credentials as strings.
- Quotes.QuoteOf: non-finite closes and changes are not modelled. Closes are real numbers, so a NaN close from the provider has no counterpart.
- Tiles.TileColor: a NaN change is not modelled. In the program it fails all four tests at main.py:55-61, gets the grey fill, and prints as `nan%`; the price prints as `$nan` only when the last close is NaN.
- Quotes.QuoteOf: a zero previous close, where numpy gives `inf` or `nan`, is excluded by a precondition.
- Quotes.RoundHundredths: ties are rounded up. Python rounds binary floats half to even, and float representation error is not modelled.
- Tiles.ChangeText: a tiny negative change rounds to `-0.0` in Python. That value passes the `>= 0` test and prints as `+-0.00%`. Integer hundredths have no negative zero, so the model prints `+0.00%`.
- Raster and fonts:
  - Image creation, `draw.rectangle`, opening, resizing and pasting logos, TrueType fonts, `draw.text` and `img.save` (main.py:35-36, 66, 71-72, 75, 79-80, 88-98) are library side effects. A tile records what is drawn instead.
  - The font sizes and the vertical text offsets (main.py:77-78, 92-94) mix floats with font sizes. A tile records only the line the text starts below.
  - Text widths come from `draw.textlength`, a font metric. Centring is modelled by `Tiles.Centre` for any width, not for the actual widths.
- `os.path.exists` on the logo path (main.py:68-69) becomes the set of tickers with a logo file.
- Environment and clock: dotenv and the environment lookups (main.py:10-14) are not modelled. `time.time()` becomes the whole-second reading `now`. The date in the saved file name (main.py:97) is not modelled.
- SHA-1 and hex encoding (main.py:105-106) are the function parameter `sha1Hex`. The UTF-8 encoding before hashing is not modelled, so strings are hashed as given.
- The upload request (main.py:110, 120-129): the endpoint URL, the file field, the POST, and the handling of the status and JSON response are network I/O and are not modelled.
