/**
 * The dashboard's top level: the ether price it fetches once from
 * CoinGecko and hands to the panels, and the choice between the
 * connecting spinner, the dashboard and the call to connect.
 *
 * The request itself is not modelled; its result is a parameter. The price
 * is a JSON number held as a `real` and never computed with.
 */
module App {
  import opened Wrappers

  /** A decoded JSON value. */
  datatype Json =
    | JNull
    | JBool(b: bool)
    | JNumber(n: real)
    | JString(s: string)
    | JArray(items: seq<Json>)
    | JObject(fields: map<string, Json>)

  /** How the price request ends. */
  datatype PriceResponse =
    | NotOk(statusText: string) // `response.ok` is false
    | Body(data: Json)          // the body was decoded
    | Failed                    // `fetch` or `response.json()` threw

  /** The value at `key` of an object; `undefined` for anything else. */
  function Field(value: Json, key: string): Option<Json> {
    if value.JObject? && key in value.fields then Some(value.fields[key]) else None
  }

  /**
   * `data.ethereum?.usd` when it is a number. A `null` body makes the
   * property access throw, which the `catch` block absorbs, so it yields
   * no quote either.
   */
  function UsdQuote(data: Json): (quote: Option<real>)
    ensures quote.Some? <==>
      && Field(data, "ethereum").Some?
      && Field(Field(data, "ethereum").value, "usd").Some?
      && Field(Field(data, "ethereum").value, "usd").value.JNumber?
    ensures quote.Some? ==> data.fields["ethereum"].fields["usd"] == JNumber(quote.value)
  {
    match Field(data, "ethereum")
    case None => None
    case Some(ethereum) =>
      match Field(ethereum, "usd")
      case Some(JNumber(n)) => Some(n)
      case _ => None
  }

  /**
   * The price the state holds after one response, given the one it held
   * before: a quoting response sets its quote, any other keeps the old
   * price, so a known price is never lost.
   */
  function PriceAfter(previous: Option<real>, response: PriceResponse): (price: Option<real>)
    ensures Quotes(response) ==> price == UsdQuote(response.data) && price.Some?
    ensures !Quotes(response) ==> price == previous
  {
    if response.Body? && UsdQuote(response.data).Some? then UsdQuote(response.data) else previous
  }

  /** The price after a series of responses, in order. */
  function PriceAfterAll(previous: Option<real>, responses: seq<PriceResponse>): Option<real>
    decreases |responses|
  {
    if responses == [] then previous
    else PriceAfterAll(PriceAfter(previous, responses[0]), responses[1..])
  }

  /** The response carries a numeric quote. */
  predicate Quotes(response: PriceResponse) {
    response.Body? && UsdQuote(response.data).Some?
  }

  /** Response `i` is the last one that carries a quote. */
  predicate LastQuoteAt(responses: seq<PriceResponse>, i: int) {
    && 0 <= i < |responses|
    && Quotes(responses[i])
    && forall j :: i < j < |responses| ==> !Quotes(responses[j])
  }

  /**
   * A known price is never lost, and the price after a series of responses
   * is the quote of the last response that carried one, or the starting
   * price if none did.
   */
  lemma {:induction false} PriceAfterAllLastQuote(previous: Option<real>, responses: seq<PriceResponse>)
    ensures previous.Some? ==> PriceAfterAll(previous, responses).Some?
    ensures (forall i :: 0 <= i < |responses| ==> !Quotes(responses[i])) ==>
      PriceAfterAll(previous, responses) == previous
    ensures forall i :: LastQuoteAt(responses, i) ==>
      PriceAfterAll(previous, responses) == UsdQuote(responses[i].data)
    decreases |responses|
  {
    if responses != [] {
      var first, rest := responses[0], responses[1..];
      var next := PriceAfter(previous, first);
      PriceAfterAllLastQuote(next, rest);
      assert forall j :: 0 <= j < |rest| ==> rest[j] == responses[j + 1];
      forall i | LastQuoteAt(responses, i)
        ensures PriceAfterAll(previous, responses) == UsdQuote(responses[i].data)
      {
        if i == 0 {
          assert forall j :: 0 <= j < |rest| ==> !Quotes(rest[j]);
        } else {
          assert rest[i - 1] == responses[i];
          assert forall j :: i - 1 < j < |rest| ==> !Quotes(rest[j]);
        }
      }
    }
  }

  /** The app's price cell and the effect that fills it. */
  class PriceCell {
    var usdPrice: Option<real>

    /** `useState<number | null>(null)`. */
    constructor ()
      ensures usdPrice == None
    {
      usdPrice := None;
    }

    /**
     * `fetchEthPrice` for one response: only a numeric `ethereum.usd` is
     * stored; a failed status, another body or an exception keep the old
     * price, and nothing escapes the handler.
     */
    method FetchEthPrice(response: PriceResponse)
      modifies this
      ensures usdPrice == PriceAfter(old(usdPrice), response)
      ensures usdPrice != old(usdPrice) ==> Quotes(response) && usdPrice == UsdQuote(response.data)
    {
      match response {
        case NotOk(_) =>
          return;
        case Body(data) =>
          var quote := UsdQuote(data);
          if quote.Some? {
            usdPrice := quote;
          }
        case Failed =>
      }
    }
  }

  // ---------------------------------------------------------------------
  // Which panel the page shows
  // ---------------------------------------------------------------------

  datatype Panel = Spinner | Dashboard | CallToAction

  predicate ShowsSpinner(isConnected: bool, isConnecting: bool) {
    isConnecting
  }

  predicate ShowsDashboard(isConnected: bool, isConnecting: bool) {
    isConnected && !isConnecting
  }

  predicate ShowsCallToAction(isConnected: bool, isConnecting: bool) {
    !isConnected && !isConnecting
  }

  /** The panels the page renders, in document order, for one connection state. */
  function VisiblePanels(isConnected: bool, isConnecting: bool): (panels: seq<Panel>)
    ensures |panels| == 1
    ensures panels[0] == Spinner <==> isConnecting
    ensures panels[0] == Dashboard <==> isConnected && !isConnecting
    ensures panels[0] == CallToAction <==> !isConnected && !isConnecting
  {
    (if ShowsSpinner(isConnected, isConnecting) then [Spinner] else [])
    + (if ShowsDashboard(isConnected, isConnecting) then [Dashboard] else [])
    + (if ShowsCallToAction(isConnected, isConnecting) then [CallToAction] else [])
  }
}
