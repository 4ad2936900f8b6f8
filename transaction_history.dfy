/**
 * The transaction history panel: an effect that asks Etherscan for the
 * connected account's transactions and keeps three pieces of state
 * (`transactions`, `isLoading`, `errorMessage`), the choice of what the
 * panel shows from that state, and the text each transaction row derives
 * from its record.
 *
 * The network, `URL` serialisation and JSON decoding are not modelled: the
 * answer to the request is a parameter, one of the outcomes the effect
 * distinguishes.
 */
module TransactionHistory {
  import opened Wrappers
  import opened JsStrings
  import Decimal
  import Formatters

  /**
   * One record of Etherscan's `txlist` answer. The amounts, which Etherscan
   * sends as decimal strings and the panel reads with `BigInt`, are held as
   * their integer values.
   */
  datatype Transaction = Transaction(
    hash: string,
    from: string,
    to: string,
    value: nat,
    gasUsed: nat,
    gasPrice: nat,
    nonce: string,
    timeStamp: string,
    isError: string)

  /** The decoded JSON body of an Etherscan answer. */
  datatype EtherscanResponse = EtherscanResponse(status: string, message: string, result: seq<Transaction>)

  /** What a `throw` carries into the `catch` block: an `Error` instance or some other value. */
  datatype Thrown = ErrorObject(message: string) | OtherValue

  /** How the request ends, as far as the effect can tell. */
  datatype FetchOutcome =
    | HttpNotOk(statusText: string)     // `response.ok` is false
    | Answered(data: EtherscanResponse) // the body was decoded
    | Raised(thrown: Thrown)            // `fetch` or `response.json()` threw

  const ApiErrorFallback := "Failed to load transactions"
  const HttpErrorPrefix := "Etherscan request failed: "

  // ---------------------------------------------------------------------
  // The query string
  // ---------------------------------------------------------------------

  /** One `name=value` entry of a URL's search parameters. */
  datatype Param = Param(name: string, value: string)

  /** `searchParams.get(name)`: the value of the first entry with that name. */
  function Get(ps: seq<Param>, name: string): Option<string> {
    if ps == [] then None
    else if ps[0].name == name then Some(ps[0].value)
    else Get(ps[1..], name)
  }

  /** The entries with any other name, in order. */
  function Without(ps: seq<Param>, name: string): (r: seq<Param>)
    ensures Get(r, name) == None
  {
    if ps == [] then []
    else if ps[0].name == name then Without(ps[1..], name)
    else [ps[0]] + Without(ps[1..], name)
  }

  lemma {:induction false} WithoutTwice(ps: seq<Param>, name: string)
    ensures Without(Without(ps, name), name) == Without(ps, name)
  {
    if ps != [] {
      WithoutTwice(ps[1..], name);
      if ps[0].name != name {
        var rest := Without(ps[1..], name);
        assert ([ps[0]] + rest)[0] == ps[0] && ([ps[0]] + rest)[1..] == rest;
      }
    }
  }

  /** Appending an entry with another name does not make `name` appear. */
  lemma {:induction false} GetSnocAbsent(ps: seq<Param>, p: Param, name: string)
    requires Get(ps, name) == None && p.name != name
    ensures Get(ps + [p], name) == None
  {
    if ps != [] {
      assert (ps + [p])[1..] == ps[1..] + [p];
      GetSnocAbsent(ps[1..], p, name);
    } else {
      assert [p][1..] == [];
    }
  }

  /**
   * `searchParams.set(name, value)`: the first entry with that name takes
   * the new value and every later one is removed; without such an entry
   * the pair is appended.
   */
  function SetParam(ps: seq<Param>, name: string, value: string): (r: seq<Param>)
    ensures Get(r, name) == Some(value)
    ensures Without(r, name) == Without(ps, name)
    ensures Get(ps, name) == None ==> r == ps + [Param(name, value)]
  {
    if ps == [] then [Param(name, value)]
    else if ps[0].name == name then
      var rest := Without(ps[1..], name);
      assert ([Param(name, value)] + rest)[1..] == rest;
      WithoutTwice(ps[1..], name);
      [Param(name, value)] + rest
    else
      var rest := SetParam(ps[1..], name, value);
      assert ([ps[0]] + rest)[0] == ps[0] && ([ps[0]] + rest)[1..] == rest;
      assert Get(ps, name) == None ==> ps == [ps[0]] + ps[1..];
      [ps[0]] + rest
  }

  /** `set` called for each entry in turn. */
  function SetEach(ps: seq<Param>, entries: seq<Param>): seq<Param>
    decreases |entries|
  {
    if entries == [] then ps
    else SetEach(SetParam(ps, entries[0].name, entries[0].value), entries[1..])
  }

  predicate DistinctNames(entries: seq<Param>) {
    forall i, j :: 0 <= i < j < |entries| ==> entries[i].name != entries[j].name
  }

  /** No entry carries `name`, so `get` finds nothing. */
  lemma {:induction false} GetAbsent(ps: seq<Param>, name: string)
    requires forall i :: 0 <= i < |ps| ==> ps[i].name != name
    ensures Get(ps, name) == None
  {
    if ps != [] {
      GetAbsent(ps[1..], name);
    }
  }

  /** The names after the first are distinct, and none of them is the first. */
  lemma DistinctNamesTail(entries: seq<Param>)
    requires entries != [] && DistinctNames(entries)
    ensures DistinctNames(entries[1..])
    ensures forall p | p in entries[1..] :: p.name != entries[0].name
  {
    var rest := entries[1..];
    forall i, j | 0 <= i < j < |rest| ensures rest[i].name != rest[j].name {
      assert rest[i] == entries[i + 1] && rest[j] == entries[j + 1];
    }
    forall p | p in rest ensures p.name != entries[0].name {
      var k :| 0 <= k < |rest| && rest[k] == p;
      assert entries[k + 1] == p;
    }
  }

  /** Names absent from `ps` and other than `e`'s stay absent once `e` is appended. */
  lemma FreshAfterSnoc(ps: seq<Param>, e: Param, rest: seq<Param>)
    requires forall p | p in rest :: Get(ps, p.name) == None && p.name != e.name
    ensures forall p | p in rest :: Get(ps + [e], p.name) == None
  {
    forall p | p in rest ensures Get(ps + [e], p.name) == None {
      GetSnocAbsent(ps, e, p.name);
    }
  }

  lemma AppendFirst(ps: seq<Param>, entries: seq<Param>)
    requires entries != []
    ensures ps + [entries[0]] + entries[1..] == ps + entries
  {
    assert [entries[0]] + entries[1..] == entries;
  }

  /** Setting names that are new and distinct appends the entries in order. */
  lemma {:induction false} SetEachFresh(ps: seq<Param>, entries: seq<Param>)
    requires DistinctNames(entries)
    requires forall p | p in entries :: Get(ps, p.name) == None
    ensures SetEach(ps, entries) == ps + entries
    decreases |entries|
  {
    if entries != [] {
      var e, rest := entries[0], entries[1..];
      assert SetEach(ps, entries) == SetEach(ps + [e], rest) by {
        assert e in entries;
      }
      DistinctNamesTail(entries);
      assert forall p | p in rest :: Get(ps, p.name) == None && p.name != e.name by {
        assert forall p | p in rest :: p in entries;
      }
      FreshAfterSnoc(ps, e, rest);
      SetEachFresh(ps + [e], rest);
      AppendFirst(ps, entries);
    }
  }

  /** The seven parameters every request carries, in the order the effect sets them. */
  function FixedParams(chainId: int, address: string): seq<Param> {
    [ Param("chainid", Decimal.IntToString(chainId)),
      Param("module", "account"),
      Param("action", "txlist"),
      Param("address", address),
      Param("startblock", "0"),
      Param("endblock", "99999999"),
      Param("sort", "desc") ]
  }

  /** The seven names differ from each other and from `apikey`. */
  lemma FixedNames(chainId: int, address: string)
    ensures DistinctNames(FixedParams(chainId, address))
    ensures forall i :: 0 <= i < |FixedParams(chainId, address)| ==> FixedParams(chainId, address)[i].name != "apikey"
  {
  }

  /** The first entry carrying `ps[i]`'s name is `ps[i]` itself, so `get` finds its value. */
  lemma {:induction false} GetFirst(ps: seq<Param>, i: nat)
    requires i < |ps|
    requires forall j :: 0 <= j < i ==> ps[j].name != ps[i].name
    ensures Get(ps, ps[i].name) == Some(ps[i].value)
  {
    if i > 0 {
      assert ps[1..][i - 1] == ps[i];
      GetFirst(ps[1..], i - 1);
    }
  }

  /**
   * The search parameters the effect puts on `https://api.etherscan.io/v2/api`:
   * always the same seven in the same order, and an eighth, the API key,
   * exactly when one is configured.
   */
  function Query(chainId: int, address: string, apiKey: Option<string>): (q: seq<Param>)
    ensures q == FixedParams(chainId, address) + (if Truthy(apiKey) then [Param("apikey", apiKey.value)] else [])
  {
    var fixed := FixedParams(chainId, address);
    FixedNames(chainId, address);
    SetEachFresh([], fixed);
    assert [] + fixed == fixed;
    GetAbsent(fixed, "apikey");
    var q := SetEach([], fixed);
    if Truthy(apiKey) then SetParam(q, "apikey", apiKey.value) else q
  }

  /** Entries with distinct names are each found by `get`, whatever follows them. */
  lemma GetDistinctPrefix(ps: seq<Param>, extra: seq<Param>)
    requires DistinctNames(ps)
    ensures forall p | p in ps :: Get(ps + extra, p.name) == Some(p.value)
  {
    forall p | p in ps ensures Get(ps + extra, p.name) == Some(p.value) {
      var i :| 0 <= i < |ps| && ps[i] == p;
      var q := ps + extra;
      assert q[i] == p;
      assert forall j :: 0 <= j < i ==> q[j].name != q[i].name;
      GetFirst(q, i);
    }
  }

  /** An entry appended after entries of other names is found by `get`. */
  lemma GetAppended(ps: seq<Param>, e: Param)
    requires forall i :: 0 <= i < |ps| ==> ps[i].name != e.name
    ensures Get(ps + [e], e.name) == Some(e.value)
  {
    var q := ps + [e];
    assert q[|ps|] == e;
    assert forall j :: 0 <= j < |ps| ==> q[j] == ps[j];
    GetFirst(q, |ps|);
  }

  /**
   * What the server reads from the query: each of the seven fixed
   * parameters with its value, and the API key exactly when one is
   * configured.
   */
  lemma QueryParams(chainId: int, address: string, apiKey: Option<string>)
    ensures forall p | p in FixedParams(chainId, address) :: Get(Query(chainId, address, apiKey), p.name) == Some(p.value)
    ensures Get(Query(chainId, address, apiKey), "apikey") == if Truthy(apiKey) then Some(apiKey.value) else None
  {
    var fixed := FixedParams(chainId, address);
    var extra := if Truthy(apiKey) then [Param("apikey", apiKey.value)] else [];
    FixedNames(chainId, address);
    GetDistinctPrefix(fixed, extra);
    if Truthy(apiKey) {
      GetAppended(fixed, Param("apikey", apiKey.value));
    } else {
      assert fixed + extra == fixed;
      GetAbsent(fixed, "apikey");
    }
  }

  // ---------------------------------------------------------------------
  // What the panel shows
  // ---------------------------------------------------------------------

  datatype View =
    | LoadingView
    | ErrorView(message: string)
    | EmptyView
    | ListView(rows: seq<Transaction>)

  /** The panel's body: loading, then an error, then the empty notice, then the list. */
  function Render(isLoading: bool, errorMessage: string, transactions: seq<Transaction>): (v: View)
    ensures v.LoadingView? <==> isLoading
    ensures v.ErrorView? <==> !isLoading && errorMessage != ""
    ensures v.EmptyView? <==> !isLoading && errorMessage == "" && transactions == []
    ensures v.ListView? <==> !isLoading && errorMessage == "" && transactions != []
    ensures v.ErrorView? ==> v.message == errorMessage
    ensures v.ListView? ==> v.rows == transactions
  {
    if isLoading then LoadingView
    else if errorMessage != "" then ErrorView(errorMessage)
    else if |transactions| == 0 then EmptyView
    else ListView(transactions)
  }

  /** The list, or the empty notice when there is nothing in it. */
  function ListOrEmpty(transactions: seq<Transaction>): View {
    if transactions == [] then EmptyView else ListView(transactions)
  }

  /**
   * The list once a fetch that started from `previous` has settled: the
   * records of a successful answer, nothing after an API-level failure, and
   * the old list after anything thrown.
   */
  function ListAfter(previous: seq<Transaction>, outcome: FetchOutcome): seq<Transaction> {
    match outcome
    case Answered(data) => if data.status == "1" then data.result else []
    case _ => previous
  }

  /**
   * The error message once a fetch has settled, the start having cleared
   * it: the HTTP status, the API's message or its fallback, or the message
   * of a thrown `Error`; any other thrown value leaves it empty.
   */
  function ErrorAfter(outcome: FetchOutcome): string {
    match outcome
    case HttpNotOk(statusText) => HttpErrorPrefix + statusText
    case Answered(data) =>
      if data.status == "1" then ""
      else if data.message == "" then ApiErrorFallback else data.message
    case Raised(ErrorObject(message)) => message
    case Raised(OtherValue) => ""
  }

  /**
   * What the panel shows once a fetch has settled, given the list it held
   * before: the failures that carry a message show it, a successful answer
   * shows its records, and a failure without a message leaves the previous
   * list on screen. It is what the render gives for the settled state.
   */
  function ShownAfter(previous: seq<Transaction>, outcome: FetchOutcome): (v: View)
    ensures v == Render(false, ErrorAfter(outcome), ListAfter(previous, outcome))
  {
    match outcome
    case HttpNotOk(statusText) => ErrorView(HttpErrorPrefix + statusText)
    case Answered(data) =>
      if data.status == "1" then ListOrEmpty(data.result)
      else ErrorView(if data.message == "" then ApiErrorFallback else data.message)
    case Raised(ErrorObject(message)) =>
      if message == "" then ListOrEmpty(previous) else ErrorView(message)
    case Raised(OtherValue) => ListOrEmpty(previous)
  }

  /** The effect only runs for a connected address on a known chain: `!address || !chainId` returns early. */
  function ShouldFetch(address: Option<string>, chainId: int): (fetch: bool)
    ensures fetch <==> address.Some? && |address.value| >= 1 && chainId != 0
  {
    Truthy(address) && chainId != 0
  }

  /** The component's state cells and the effect that updates them. */
  class HistoryPanel {
    var transactions: seq<Transaction>
    var isLoading: bool
    var errorMessage: string

    /** The `useState` initial values. */
    constructor ()
      ensures transactions == [] && !isLoading && errorMessage == ""
      ensures View() == EmptyView
    {
      transactions := [];
      isLoading := false;
      errorMessage := "";
    }

    function View(): View
      reads this
    {
      Render(isLoading, errorMessage, transactions)
    }

    /** The first two steps of `fetchTransactions`: show the spinner and drop any old error. */
    method Start()
      modifies this
      ensures isLoading && errorMessage == "" && transactions == old(transactions)
      ensures View() == LoadingView
    {
      isLoading := true;
      errorMessage := "";
    }

    /**
     * The rest of `fetchTransactions` for one outcome: the `try` body, the
     * `catch` block for whatever it threw, and the `finally` block.
     */
    method Settle(outcome: FetchOutcome)
      modifies this
      ensures !isLoading
      ensures outcome.HttpNotOk? ==>
        errorMessage == HttpErrorPrefix + outcome.statusText && transactions == old(transactions)
      ensures outcome.Answered? && outcome.data.status == "1" ==>
        transactions == outcome.data.result && errorMessage == old(errorMessage)
      ensures outcome.Answered? && outcome.data.status != "1" ==>
        && transactions == []
        && errorMessage == (if outcome.data.message == "" then ApiErrorFallback else outcome.data.message)
      ensures outcome.Raised? && outcome.thrown.ErrorObject? ==>
        errorMessage == outcome.thrown.message && transactions == old(transactions)
      ensures outcome == Raised(OtherValue) ==>
        errorMessage == old(errorMessage) && transactions == old(transactions)
      ensures transactions == ListAfter(old(transactions), outcome)
      ensures old(errorMessage) == "" ==> errorMessage == ErrorAfter(outcome)
      ensures old(errorMessage) == "" ==> View() == ShownAfter(old(transactions), outcome)
    {
      var caught: Option<Thrown> := None;
      match outcome {
        case HttpNotOk(statusText) =>
          caught := Some(ErrorObject(HttpErrorPrefix + statusText));
        case Answered(data) =>
          if data.status == "1" {
            transactions := data.result;
          } else {
            errorMessage := if data.message == "" then ApiErrorFallback else data.message;
            transactions := [];
          }
        case Raised(thrown) =>
          caught := Some(thrown);
      }
      if caught.Some? && caught.value.ErrorObject? {
        errorMessage := caught.value.message;
      }
      isLoading := false;
    }

    /**
     * One run of the effect for the current `address` and `chainId`: the
     * request it sends, if any, and the state once the answer is in.
     */
    method RunEffect(address: Option<string>, chainId: int, apiKey: Option<string>, outcome: FetchOutcome)
      returns (request: Option<seq<Param>>)
      modifies this
      ensures !ShouldFetch(address, chainId) ==>
        request == None && transactions == old(transactions)
        && isLoading == old(isLoading) && errorMessage == old(errorMessage)
      ensures ShouldFetch(address, chainId) ==>
        && request == Some(Query(chainId, address.value, apiKey))
        && !isLoading
        && transactions == ListAfter(old(transactions), outcome)
        && errorMessage == ErrorAfter(outcome)
        && View() == ShownAfter(old(transactions), outcome)
    {
      if !ShouldFetch(address, chainId) {
        return None;
      }
      Start();
      request := Some(Query(chainId, address.value, apiKey));
      Settle(outcome);
    }
  }

  // ---------------------------------------------------------------------
  // One row of the list
  // ---------------------------------------------------------------------

  const SuccessLabel := "Success"
  const FailedLabel := "Failed"
  const ContractCreation := "Contract creation"

  /** The status label: a record succeeded exactly when its `isError` field is `"0"`. */
  function StatusLabel(isError: string): (r: string)
    ensures r == SuccessLabel <==> isError == "0"
    ensures r == FailedLabel <==> isError != "0"
  {
    if isError == "0" then SuccessLabel else FailedLabel
  }

  /** The recipient cell: the shortened address, or a note for a contract deployment. */
  function RecipientText(to: string): (r: string)
    ensures to != "" ==> r == Formatters.ShortenAddress(Some(to), Formatters.DefaultChars)
    ensures r == ContractCreation <==> to == ""
  {
    if to != "" then Formatters.ShortenAddress(Some(to), Formatters.DefaultChars) else ContractCreation
  }

  /** The hash cell: its first 24 characters, an ellipsis, and its last 12. */
  function HashText(hash: string): (r: string)
    ensures r == (if |hash| < 24 then hash else hash[..24]) + "..."
      + (if |hash| < 12 then hash else hash[|hash| - 12..])
    ensures |hash| >= 36 ==> |r| == 39
  {
    Slice(hash, 0, 24) + "..." + SliceFrom(hash, -12)
  }

  /** The fee in wei: the exact product of the gas used and the gas price. */
  function FeeInWei(tx: Transaction): (fee: nat)
    ensures fee == 0 <==> tx.gasUsed == 0 || tx.gasPrice == 0
    ensures tx.gasUsed >= 1 ==> fee >= tx.gasPrice
  {
    ProductFacts(tx.gasUsed, tx.gasPrice);
    tx.gasUsed * tx.gasPrice
  }

  lemma ProductFacts(a: nat, b: nat)
    ensures a * b >= 0
    ensures a * b == 0 <==> a == 0 || b == 0
    ensures a >= 1 ==> a * b >= b
  {
    Decimal.MulNonneg(a, b);
    if a >= 1 {
      Decimal.MulAtLeast(b, a);
      if b >= 1 {
        Decimal.MulAtLeast(a, b);
      }
    }
  }

  /** `formatEther` of the fee reads back to the exact product of the gas used and the gas price. */
  lemma FeeTextExact(tx: Transaction)
    ensures Formatters.ParseEther(Formatters.FormatEther(FeeInWei(tx))) == Some(tx.gasUsed * tx.gasPrice)
  {
    Formatters.FormatEtherRoundTrip(FeeInWei(tx));
  }
}
