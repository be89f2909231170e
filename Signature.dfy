/** The signed upload request: `generate_signature` and the fixed parameter
    set that `upload_image` signs and sends. The SHA-1 digest is a library
    call and enters as the parameter `sha1Hex` (text in, hex digest out). */
module Signature {

  import opened PyDict
  import opened StringOrder
  import opened Decimal

  /** `sep.join(parts)` */
  function Join(parts: seq<string>, sep: string): string
    decreases |parts|
  {
    if parts == [] then ""
    else if |parts| == 1 then parts[0]
    else parts[0] + sep + Join(parts[1..], sep)
  }

  /** `sorted(data)`: the keys of the dictionary in ascending order, each once. */
  function SortedKeys(d: Dict<string, string>): (ks: seq<string>)
    requires d.Valid()
    ensures StrictlySorted(ks)
    ensures |ks| == |d.keys|
    ensures forall k :: k in ks <==> k in d.values
  {
    SortDistinct(d.keys);
    Sort(d.keys)
  }

  /** The `key=value` pairs for the given keys, in the given order. */
  function Pairs(d: Dict<string, string>, ks: seq<string>): (pairs: seq<string>)
    requires forall k :: k in ks ==> k in d.values
    ensures |pairs| == |ks|
    ensures forall i :: 0 <= i < |ks| ==> pairs[i] == ks[i] + "=" + d.values[ks[i]]
  {
    seq(|ks|, i requires 0 <= i < |ks| => ks[i] + "=" + d.values[ks[i]])
  }

  /** The text that is hashed: the `key=value` items in ascending key order
      joined by `&`, with the secret appended directly, after no separator. */
  function SignedText(d: Dict<string, string>, secret: string): (t: string)
    requires d.Valid()
    ensures |t| >= |secret| && t[|t| - |secret|..] == secret
  {
    var t := Join(Pairs(d, SortedKeys(d)), "&") + secret;
    assert t[|t| - |secret|..] == secret;
    t
  }

  /** The signed text, hence the signature, depends only on the dictionary's
      contents, not on the order in which its keys were inserted. */
  lemma InsertionOrderIrrelevant(d1: Dict<string, string>, d2: Dict<string, string>, secret: string)
    requires d1.Valid() && d2.Valid()
    requires d1.values == d2.values
    ensures SignedText(d1, secret) == SignedText(d2, secret)
  {
    StrictlySortedUnique(SortedKeys(d1), SortedKeys(d2));
  }

  /** Every dictionary with the same contents as `d` has the same signed text. */
  lemma SameContentsSameText(d: Dict<string, string>, secret: string)
    requires d.Valid()
    ensures forall d2: Dict<string, string> :: d2.Valid() && d2.values == d.values ==> SignedText(d2, secret) == SignedText(d, secret)
  {
    forall d2: Dict<string, string> | d2.Valid() && d2.values == d.values
      ensures SignedText(d2, secret) == SignedText(d, secret)
    {
      InsertionOrderIrrelevant(d2, d, secret);
    }
  }

  /** `generate_signature(data, api_secret)`: the digest of the signed text,
      which is the same for every dictionary with the same contents. */
  function GenerateSignature(d: Dict<string, string>, secret: string, sha1Hex: string -> string): (sig: string)
    requires d.Valid()
    ensures forall d2: Dict<string, string> :: d2.Valid() && d2.values == d.values ==> sig == sha1Hex(SignedText(d2, secret))
  {
    SameContentsSameText(d, secret);
    sha1Hex(SignedText(d, secret))
  }

  /** The three parameters `upload_image` builds before signing, given the
      timestamp text. */
  function UploadParams(timestamp: string): (d: Dict<string, string>)
    ensures d.Valid()
    ensures d.keys == ["overwrite", "public_id", "timestamp"]
    ensures d.values == map["overwrite" := "true", "public_id" := "daily_stock_update", "timestamp" := timestamp]
  {
    FormFieldNamesDistinct();
    ThreeInserts("overwrite", "true", "public_id", "daily_stock_update", "timestamp", timestamp);
    var d0 := Insert(Empty(), "overwrite", "true");
    var d1 := Insert(d0, "public_id", "daily_stock_update");
    Insert(d1, "timestamp", timestamp)
  }

  /** `str(int(time.time()))` for a clock reading of `now` whole seconds. */
  function Timestamp(now: nat): (t: string)
    ensures t != [] && AllDigits(t) && DigitsValue(t) == now
  {
    NatToStringRoundTrip(now);
    NatToString(now)
  }

  /** The complete form `upload_image` posts for the given timestamp text:
      the three parameters, then the signature over them, then the API key. */
  function UploadForm(timestamp: string, secret: string, apiKey: string, sha1Hex: string -> string): (d: Dict<string, string>)
    ensures d.Valid()
  {
    var params := UploadParams(timestamp);
    var signed := Insert(params, "signature", GenerateSignature(params, secret, sha1Hex));
    Insert(signed, "api_key", apiKey)
  }

  /** Three inserts of different keys into an empty dictionary. */
  lemma ThreeInserts(k1: string, v1: string, k2: string, v2: string, k3: string, v3: string)
    requires k1 != k2 && k1 != k3 && k2 != k3
    ensures var d := Insert(Insert(Insert(Empty(), k1, v1), k2, v2), k3, v3);
      && d.keys == [k1, k2, k3]
      && d.values == map[k1 := v1, k2 := v2, k3 := v3]
  {
  }

  /** Two more inserts of new keys. */
  lemma TwoMoreInserts(d: Dict<string, string>, k4: string, v4: string, k5: string, v5: string)
    requires d.Valid() && k4 !in d.values && k5 !in d.values && k4 != k5
    ensures var r := Insert(Insert(d, k4, v4), k5, v5);
      && r.keys == d.keys + [k4, k5]
      && r.values == d.values[k4 := v4][k5 := v5]
      && r.values[k4] == v4 && r.values[k5] == v5
      && forall k :: k in d.values ==> k in r.values && r.values[k] == d.values[k]
  {
  }

  /** The values of the upload parameters, and the two fields that are not
      among them yet. */
  lemma UploadParamsContents(timestamp: string)
    ensures var d := UploadParams(timestamp);
      && d.values["overwrite"] == "true"
      && d.values["public_id"] == "daily_stock_update"
      && d.values["timestamp"] == timestamp
      && "signature" !in d.values && "api_key" !in d.values
  {
    FormFieldNamesDistinct();
    ThreeInserts("overwrite", "true", "public_id", "daily_stock_update", "timestamp", timestamp);
  }

  /** "overwrite" < "public_id" < "timestamp" */
  lemma UploadKeysAscending()
    ensures StrictlySorted(["overwrite", "public_id", "timestamp"])
  {
    var order := ["overwrite", "public_id", "timestamp"];
    assert order[0][0] == 'o' && order[1][0] == 'p' && order[2][0] == 't';
    assert Less(order[0], order[1]) && Less(order[1], order[2]) && Less(order[0], order[2]);
  }

  /** Joining one more part adds the separator and the part at the end. */
  lemma {:induction false} JoinAppend(ps: seq<string>, p: string, sep: string)
    ensures ps == [] ==> Join(ps + [p], sep) == p
    ensures ps != [] ==> Join(ps + [p], sep) == Join(ps, sep) + sep + p
    decreases |ps|
  {
    if |ps| == 1 {
      assert ps + [p] == [ps[0], p] && [ps[0], p][1..] == [p];
    } else if |ps| > 1 {
      assert (ps + [p])[1..] == ps[1..] + [p];
      JoinAppend(ps[1..], p, sep);
      assert Join(ps + [p], sep) == ps[0] + sep + (Join(ps[1..], sep) + sep + p);
    }
  }

  lemma JoinThree(a: string, b: string, c: string, sep: string)
    ensures Join([a, b, c], sep) == a + sep + b + sep + c
  {
    assert [a, b, c][1..] == [b, c] && [b, c][1..] == [c];
    assert Join([b, c], sep) == b + sep + c;
    assert Join([a, b, c], sep) == a + sep + (b + sep + c);
  }

  lemma UploadKeysSorted(timestamp: string)
    ensures SortedKeys(UploadParams(timestamp)) == ["overwrite", "public_id", "timestamp"]
  {
    UploadParamsContents(timestamp);
    UploadKeysAscending();
    StrictlySortedUnique(SortedKeys(UploadParams(timestamp)), ["overwrite", "public_id", "timestamp"]);
  }

  lemma UploadPairs(timestamp: string)
    ensures Pairs(UploadParams(timestamp), ["overwrite", "public_id", "timestamp"])
         == ["overwrite" + "=" + "true", "public_id" + "=" + "daily_stock_update", "timestamp" + "=" + timestamp]
  {
    UploadParamsContents(timestamp);
  }

  /** The fixed part of the signed upload text. */
  const UploadSignedPrefix := "overwrite=true&public_id=daily_stock_update&timestamp="

  lemma UploadSignedPrefixLiteral()
    ensures "overwrite" + "=" + "true" + "&" + "public_id" + "=" + "daily_stock_update" + "&" + "timestamp" + "="
         == UploadSignedPrefix
  {
    UploadSignedPrefixHead();
    UploadSignedPrefixTail();
  }

  lemma UploadSignedPrefixHead()
    ensures "overwrite" + "=" + "true" + "&" + "public_id" + "=" == "overwrite=true&public_id="
  {
    assert "overwrite" + "=" + "true" + "&" == "overwrite=true&";
  }

  lemma UploadSignedPrefixTail()
    ensures "overwrite=true&public_id=" + "daily_stock_update" + "&" + "timestamp" + "=" == UploadSignedPrefix
  {
    assert "overwrite=true&public_id=" + "daily_stock_update" + "&" == "overwrite=true&public_id=daily_stock_update&";
  }

  lemma UploadSignedPrefixParts(timestamp: string)
    ensures ("overwrite" + "=" + "true") + "&" + ("public_id" + "=" + "daily_stock_update") + "&" + ("timestamp" + "=" + timestamp)
         == UploadSignedPrefix + timestamp
  {
    UploadSignedPrefixLiteral();
  }

  /** The text signed for an upload is fixed up to the timestamp and secret. */
  lemma UploadSignedText(timestamp: string, secret: string)
    ensures SignedText(UploadParams(timestamp), secret) == UploadSignedPrefix + timestamp + secret
  {
    var d := UploadParams(timestamp);
    var items := ["overwrite" + "=" + "true", "public_id" + "=" + "daily_stock_update", "timestamp" + "=" + timestamp];
    UploadKeysSorted(timestamp);
    UploadPairs(timestamp);
    JoinThree(items[0], items[1], items[2], "&");
    UploadSignedPrefixParts(timestamp);
  }

  /** The five form field names are pairwise different. */
  lemma FormFieldNamesDistinct()
    ensures "signature" != "overwrite" && "signature" != "public_id" && "signature" != "timestamp"
    ensures "api_key" != "overwrite" && "api_key" != "public_id" && "api_key" != "timestamp"
    ensures "api_key" != "signature"
    ensures "overwrite" != "public_id" && "overwrite" != "timestamp" && "public_id" != "timestamp"
  {
    assert "overwrite"[0] == 'o' && "public_id"[0] == 'p' && "timestamp"[0] == 't';
    assert "signature"[0] == 's' && "api_key"[0] == 'a';
  }

  /** The posted form carries the five fields in insertion order: the three
      signed parameters, the signature, the API key. */
  lemma UploadFormKeys(timestamp: string, secret: string, apiKey: string, sha1Hex: string -> string)
    ensures UploadForm(timestamp, secret, apiKey, sha1Hex).keys
         == ["overwrite", "public_id", "timestamp", "signature", "api_key"]
  {
    var params := UploadParams(timestamp);
    UploadParamsContents(timestamp);
    TwoMoreInserts(params, "signature", GenerateSignature(params, secret, sha1Hex), "api_key", apiKey);
    ThreeThenTwo("overwrite", "public_id", "timestamp", "signature", "api_key");
  }

  lemma ThreeThenTwo<T>(a: T, b: T, c: T, d: T, e: T)
    ensures [a, b, c] + [d, e] == [a, b, c, d, e]
  {
  }

  /** The values posted: the three signed parameters unchanged, the API key,
      and the signature computed over the three parameters alone. */
  lemma UploadFormFields(timestamp: string, secret: string, apiKey: string, sha1Hex: string -> string)
    ensures var d := UploadForm(timestamp, secret, apiKey, sha1Hex);
      && d.values["overwrite"] == "true"
      && d.values["public_id"] == "daily_stock_update"
      && d.values["timestamp"] == timestamp
      && d.values["api_key"] == apiKey
      && d.values["signature"] == GenerateSignature(UploadParams(timestamp), secret, sha1Hex)
  {
    var params := UploadParams(timestamp);
    UploadParamsContents(timestamp);
    FormFieldNamesDistinct();
    TwoMoreInserts(params, "signature", GenerateSignature(params, secret, sha1Hex), "api_key", apiKey);
  }

  /** The signature sent is the digest of the three fixed parameters and the
      secret only: the API key and the signature field are added after signing,
      and the secret itself is never a field of the form. */
  lemma UploadFormSignature(timestamp: string, secret: string, apiKey: string, sha1Hex: string -> string)
    ensures UploadForm(timestamp, secret, apiKey, sha1Hex).values["signature"]
         == sha1Hex(UploadSignedPrefix + timestamp + secret)
  {
    UploadFormFields(timestamp, secret, apiKey, sha1Hex);
    UploadSignedText(timestamp, secret);
  }
}
