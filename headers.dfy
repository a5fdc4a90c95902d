/**
 * Header fields as both message kinds store them (a map from name to value)
 * and as both serialisers write them: one `name: value\r\n` line per entry, in
 * the order the map's iterator happens to yield the entries.
 */
module Headers {

  type HeaderMap = map<string, string>

  /** `format!("{}: {}\r\n", k, v)`. */
  function HeaderLine(name: string, value: string): string {
    name + ": " + value + "\r\n"
  }

  predicate Distinct(order: seq<string>) {
    forall i, j :: 0 <= i < j < |order| ==> order[i] != order[j]
  }

  /** `order` lists every key of `keys` exactly once: one possible iteration order. */
  predicate IsEnumeration(order: seq<string>, keys: set<string>) {
    && (forall i :: 0 <= i < |order| ==> order[i] in keys)
    && (forall k :: k in keys ==> k in order)
    && Distinct(order)
  }

  predicate Lists(order: seq<string>, headers: HeaderMap) {
    forall i :: 0 <= i < |order| ==> order[i] in headers
  }

  /** The header lines for the keys in `order`, in that order. */
  function HeaderBlock(headers: HeaderMap, order: seq<string>): string
    requires Lists(order, headers)
  {
    if order == [] then ""
    else
      var k := order[|order| - 1];
      HeaderBlock(headers, order[..|order| - 1]) + HeaderLine(k, headers[k])
  }

  /**
   * Writes every header line, visiting the keys in an unspecified order (a
   * `HashMap` iterator's). Whatever the order, it is an enumeration of the
   * keys and the text is exactly the lines for that order.
   */
  method WriteHeaders(headers: HeaderMap) returns (block: string, ghost order: seq<string>)
    ensures IsEnumeration(order, headers.Keys)
    ensures block == HeaderBlock(headers, order)
    ensures block == "" <==> headers == map[]
    ensures block != "" ==> block[|block| - 2..] == "\r\n"
  {
    block, order := "", [];
    var remaining := headers.Keys;
    while remaining != {}
      invariant remaining <= headers.Keys
      invariant forall i :: 0 <= i < |order| ==> order[i] in headers && order[i] !in remaining
      invariant forall k :: k in headers ==> k in remaining || k in order
      invariant Distinct(order)
      invariant block == HeaderBlock(headers, order)
      decreases remaining
    {
      var k :| k in remaining;
      block := block + HeaderLine(k, headers[k]);
      order := order + [k];
      remaining := remaining - {k};
    }
  }

  /** The same header line, written without its "\r\n". */
  function HeaderText(name: string, value: string): string {
    name + ": " + value
  }

  /** The header texts for the keys in `order`, one per key. */
  function HeaderTexts(headers: HeaderMap, order: seq<string>): (texts: seq<string>)
    requires Lists(order, headers)
    ensures |texts| == |order|
    ensures forall i :: 0 <= i < |order| ==> texts[i] == HeaderText(order[i], headers[order[i]])
  {
    if order == [] then []
    else
      var k := order[|order| - 1];
      HeaderTexts(headers, order[..|order| - 1]) + [HeaderText(k, headers[k])]
  }

  /** The values for the keys in `order`: all of `headers` when `order` enumerates it. */
  lemma EnumeratedMap(headers: HeaderMap, order: seq<string>)
    requires IsEnumeration(order, headers.Keys)
    ensures (map k | k in order :: headers[k]) == headers
  {
  }
}
