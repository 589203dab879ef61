/** Encoding followed by decoding. */
module JsonRoundTrip {
  import opened Arith
  import opened Options
  import opened Json
  import opened JsonText
  import JsonDecode
  import JsonEncode

  /** The value comes back, or it nests too deep for the encoder. */
  method EncodeThenDecode(v: Value, encodeDepth: nat, cfg: Config) returns (r: Option<Value>)
    requires Printable(v) && |TextOf(v)| < 0x7fff_ffff && encodeDepth <= cfg.maxDepth
    ensures r == if Height(v) <= encodeDepth then Some(v) else None
  {
    hide TextOf, Printable, Height, Parse;
    var text := JsonEncode.Encode(v, encodeDepth);
    if text.None? {
      return None;
    }
    ParseText(cfg, v);
    r := JsonDecode.Decode(cfg, text.value);
  }
}
