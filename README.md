# Web3 dashboard: a verified model of its formatting, fetching and signing logic

This project models in Dafny the parts of the React wallet dashboard that
compute something:

- **formatters** (`src/utils/formatters.ts`):
  - `shortenAddress`, which cuts an address down to a prefix, an ellipsis and a suffix.
  - `formatBalance`, which shows a wei amount as ether with a fixed number of decimal places.
  - viem's `formatEther`, which `formatBalance` relies on. It is modelled as a
    specification function, the exact decimal expansion of `wei / 10^18`, with
    a reader (`ParseEther`) that it round-trips with.
- **transaction history** (`src/components/TransactionHistory.tsx`):
  - The effect that queries Etherscan. It is a class whose fields are the
    component's three state cells, with a method for each phase of the fetch.
  - The search parameters the effect builds.
  - The precedence of what the panel renders: loading, then an error, then the
    empty notice, then the list.
  - The text each row derives from its record.
- **message signer** (`src/components/MessageSigner.tsx`):
  - The panel's state and its handlers.
  - The guard that enables the sign button.
  - The `includes('valid')` test that picks the styling of the verification result.
- **app** (`src/App.tsx`):
  - The ether price cell, which keeps the last quote it received.
  - The choice between the connecting spinner, the dashboard and the call to connect.

Modules:

| Module | File | Contents |
|---|---|---|
| `Wrappers` | `wrappers.dfy` | `Option` and `Result` |
| `JsStrings` | `js_strings.dfy` | The JavaScript string operations the code uses (`slice`, `padEnd`, `split`, `trim`, `includes`), the `indexOf` that `ParseEther` reads with, and the truthiness of an optional string |
| `Decimal` | `decimal.dfy` | Decimal digit strings: values, fixed-width renderings, trailing-zero stripping |
| `Formatters` | `formatters.dfy` | The formatters |
| `TransactionHistory` | `transaction_history.dfy` | The transaction history panel |
| `MessageSigner` | `message_signer.dfy` | The message signer panel |
| `App` | `app.dfy` | The top level |

Three behaviours of the code are easy to misread. The model states each one as the code has it:

- **An HTTP failure keeps the list.** The code throws an `Error`, and the
  `catch` block only sets the message, so the transactions from the previous
  fetch stay in state (`HistoryPanel.Settle`, `ListAfter`). Only an API-level
  failure empties the list.
- **A skipped fetch changes nothing.** Without an address or a chain id the
  effect returns before touching any state, so whatever the panel held is
  kept (`HistoryPanel.RunEffect`).
- **A non-`Error` value is swallowed.** When the thrown value is not an `Error`
  instance, the `catch` block sets no message. The spinner stops and the
  previous list shows again (`Thrown.OtherValue`, `ErrorAfter`).

## Model

| member | source | states |
|---|---|---|
| JsStrings.Slice | src/utils/formatters.ts:13 | `slice(start, end)` over positions clamped into `[0, len]`. In-range positions give that substring, and an end past the length runs to the end. A negative end within the length counts from the end. The result is empty when the clamped positions cross. |
| JsStrings.SliceFrom | src/utils/formatters.ts:13 | `slice(start)`. A negative start within the length keeps that many characters from the end, `-0` keeps the whole string, and a start past the end gives the empty string. |
| JsStrings.PadEnd | src/utils/formatters.ts:28 | `padEnd(n, c)` keeps the string as a prefix and fills up to `n` characters with `c`, but never shortens. |
| JsStrings.SplitOnce | src/utils/formatters.ts:22 | A text with exactly one separator splits into the two pieces around it. |
| JsStrings.SplitNoSeparator | src/utils/formatters.ts:22 | A text without the separator splits into itself alone. |
| JsStrings.TrimEmptyIffBlank | src/components/MessageSigner.tsx:34 | `!s.trim()` holds exactly when every character is ECMAScript whitespace. |
| Formatters.ShortenAddress | src/utils/formatters.ts:3-14 | Gives the placeholder `Unknown` for a missing or empty address, and the address unchanged when it has at most `2*chars+2` characters. Otherwise it gives the first `chars+2` characters, `...` and the last `chars`, `2*chars+5` characters in all. With `chars = 0` the suffix is the whole address. |
| Formatters.ShortenIdempotent | src/utils/formatters.ts:8-13 | Shortening a shortened address changes nothing, when `chars >= 1`, and for a missing address when `chars >= 3`. |
| Formatters.ShortenZeroCharsNotIdempotent | src/utils/formatters.ts:13 | With `chars = 0`, `slice(-0)` keeps the whole address, so a second pass grows the text again. |
| Formatters.ShortenPlaceholderReshortened | src/utils/formatters.ts:4-13 | With `chars = 2` the placeholder is itself shortened on a second pass, to `Unkn...wn`. |
| Formatters.FormatEther | src/utils/formatters.ts:21 | viem's `formatEther(v)` is non-empty and starts with `-` exactly for a negative amount. It contains a point exactly when the amount is not a whole number of ether. |
| Formatters.EtherWhole | src/utils/formatters.ts:21-22 | `formatEther`'s integer part is non-empty, has no point, and starts with `-` exactly for a negative amount. |
| Formatters.EtherFraction | src/utils/formatters.ts:21-22 | `formatEther`'s fraction is at most 18 digits, with no point and no trailing zero. |
| Formatters.EtherFractionEmptyIff | src/utils/formatters.ts:21-22 | `formatEther` writes a fraction exactly when the amount is not a whole number of ether. |
| Formatters.FormatEtherSplit | src/utils/formatters.ts:22 | `formatEther(v).split('.')` is the integer part alone, or the integer part and the fraction. |
| Formatters.UnsignedEtherDigits | src/utils/formatters.ts:21 | An unsigned ether text reads back as its whole digits and its fraction padded to 18 places. |
| Formatters.ParseEtherSigned | src/utils/formatters.ts:21 | A leading `-` negates what the rest of an ether text reads as, and its absence leaves the value as it is. |
| Formatters.FormatEtherSigned | src/utils/formatters.ts:21 | `formatEther(v)` is a `-` for negative `v`, followed by the whole digits and the optional `.fraction` of abs(v). |
| Formatters.EtherBlocksValue | src/utils/formatters.ts:21 | The whole digits and padded fraction that `formatEther(v)` writes denote exactly abs(v) wei. |
| Formatters.FormatEtherBlocks | src/utils/formatters.ts:21 | `formatEther(v)` is an optional `-` before an unsigned text whose digit blocks denote abs(v) wei. |
| Formatters.FormatEtherRoundTrip | src/utils/formatters.ts:21 | `formatEther` loses neither sign nor magnitude: reading its text back gives the exact wei amount, for every integer. |
| Formatters.FormatBalance | src/utils/formatters.ts:16-19 | A missing or zero amount shows `0`. |
| Formatters.FormatBalanceFixed | src/utils/formatters.ts:16-19 | The corrected version also shows `0` for a missing or zero amount. |
| Formatters.TruncatedFraction | src/utils/formatters.ts:28 | The cut-off fraction is exactly `d` digits. |
| Formatters.CutAndPad | src/utils/formatters.ts:28 | Cutting the stripped fraction to `d` places and padding it with zeros gives the first `d` places of the full 18-digit block. |
| Formatters.FormatBalanceThrowsOnlyOnWholeEther | src/utils/formatters.ts:21-28 | `formatBalance` throws if and only if the amount is a nonzero whole number of ether and `decimals != 0`. |
| Formatters.FormatBalanceAgreesWhenOk | src/utils/formatters.ts:21-28 | Wherever it does not throw, `formatBalance` as written shows what the corrected version shows. |
| Formatters.FormatBalanceNoDecimals | src/utils/formatters.ts:24-28 | With `decimals = 0` a whole-ether amount shows the bare integer, and any other amount shows the integer and a dangling point. |
| Formatters.FormatBalanceTruncates | src/utils/formatters.ts:21-28 | When `decimals >= 1` and the amount is not whole ether, the result is the signed integer part, a point and the first `decimals` places of the exact amount, never rounded. |
| Formatters.FormatBalanceFixedTruncates | src/utils/formatters.ts:21-28 | For every nonzero amount and `decimals >= 1`, whole ether included, the corrected `formatBalance` shows the signed integer part, a point and the first `decimals` places, padded with zeros. |
| Formatters.FormatBalanceNeverRoundsUp | src/utils/formatters.ts:28 | 1.999999 ether at two places shows `1.99`. |
| Formatters.FormatBalanceDefaultExample | src/utils/formatters.ts:16-28 | 1.23456 ether at the default four places shows `1.2345`. |
| Formatters.FormatBalanceWholeEtherThrows | src/utils/formatters.ts:21-28 | Every positive whole number of ether at the default four places throws instead of showing `n.0000`. |
| TransactionHistory.Without | src/components/TransactionHistory.tsx:27-34 | After removing a name, `get` finds nothing under it. |
| TransactionHistory.SetParam | src/components/TransactionHistory.tsx:27-34 | After `searchParams.set`, `get` finds the new value and the other entries are as before. A new name is appended at the end. |
| TransactionHistory.SetEachFresh | src/components/TransactionHistory.tsx:27-33 | Setting distinct, new names one after another appends them in order. |
| TransactionHistory.FixedNames | src/components/TransactionHistory.tsx:27-34 | The seven fixed parameter names are distinct and none is `apikey`. |
| Decimal.IntToString | src/components/TransactionHistory.tsx:27 | `String(chainId)` is a `-` exactly for a negative id, followed by digits that read back to the magnitude. There is no leading zero, except `0` itself. |
| Decimal.IntToStringInjective | src/components/TransactionHistory.tsx:27 | Distinct chain ids give distinct `chainid` values. |
| TransactionHistory.Query | src/components/TransactionHistory.tsx:25-34 | The query is always `chainid, module, action, address, startblock, endblock, sort` with their values, in that order. An eighth entry, `apikey`, is present exactly when a key is configured. |
| TransactionHistory.QueryParams | src/components/TransactionHistory.tsx:25-34 | `get` on the query finds each of the seven fixed parameters with its value. It finds the API key exactly when one is configured. |
| TransactionHistory.Render | src/components/TransactionHistory.tsx:72-122 | The panel shows exactly one of: loading when `isLoading`; else the error when `errorMessage` is non-empty; else the empty notice when the list is empty; else the list. |
| TransactionHistory.HistoryPanel.constructor | src/components/TransactionHistory.tsx:12-14 | The state starts with no transactions, not loading and no error, which shows the empty notice. |
| TransactionHistory.HistoryPanel.Start | src/components/TransactionHistory.tsx:21-22 | The fetch starts by showing the spinner and clearing the error. The list is kept. |
| TransactionHistory.HistoryPanel.Settle | src/components/TransactionHistory.tsx:36-58 | The new state for each outcome, listed below the table. The list becomes `ListAfter(previous, outcome)`. Starting from no error, the message becomes `ErrorAfter(outcome)`. |
| TransactionHistory.ShouldFetch | src/components/TransactionHistory.tsx:18 | The effect fetches exactly for a present, non-empty address and a nonzero chain id. |
| TransactionHistory.ShownAfter | src/components/TransactionHistory.tsx:36-122 | What the panel shows for each outcome, given the previous list, is what the render gives for the settled state: not loading, with message `ErrorAfter(outcome)` and list `ListAfter(previous, outcome)`. |
| TransactionHistory.HistoryPanel.RunEffect | src/components/TransactionHistory.tsx:17-62 | Without an address or chain id nothing is sent and nothing changes. Otherwise the request carries `Query(...)`. Afterwards the list is `ListAfter(previous, outcome)`, the message is `ErrorAfter(outcome)`, loading is off, and the panel shows `ShownAfter(previous, outcome)`. |
| TransactionHistory.StatusLabel | src/components/TransactionHistory.tsx:184 | `Success` exactly when `isError` is `"0"`, `Failed` otherwise. |
| TransactionHistory.RecipientText | src/components/TransactionHistory.tsx:246 | The shortened recipient, or `Contract creation` exactly when `to` is empty. |
| TransactionHistory.HashText | src/components/TransactionHistory.tsx:276 | The first 24 characters, `...` and the last 12 characters of the hash, which is 39 characters for any hash of at least 36. |
| TransactionHistory.FeeInWei | src/components/TransactionHistory.tsx:126-127 | The fee is zero exactly when the gas used or the gas price is zero, and it is at least the gas price once any gas is used. |
| TransactionHistory.FeeTextExact | src/components/TransactionHistory.tsx:126-129 | `formatEther` of the fee reads back to exactly `gasUsed * gasPrice`. |
| MessageSigner.ResultText | src/components/MessageSigner.tsx:57-64 | Each of the three texts is stored for exactly one verifier outcome: valid for true, invalid for false, failed for an exception. |
| MessageSigner.SignEnabled | src/components/MessageSigner.tsx:176 | The sign button is enabled exactly when the message is not blank, no request is pending and an address is connected. |
| MessageSigner.ShownAsMatch | src/components/MessageSigner.tsx:308-368 | As written, both texts a verifier answer stores are styled as a match, and a text without a `v` never is. |
| MessageSigner.ShownAsMatchIff | src/components/MessageSigner.tsx:308-368 | As written, a result is styled as a match exactly when the verifier answered, whether it answered true or false. |
| MessageSigner.InvalidShownAsMatch | src/components/MessageSigner.tsx:308-368 | The rejected signature's text `❌ Signature is invalid` is styled as a match. |
| MessageSigner.ShownAsMatchFixedIff | src/components/MessageSigner.tsx:308-368 | With an exact comparison, a result is styled as a match exactly when the verifier accepted the signature. |
| MessageSigner.SignerPanel.constructor | src/components/MessageSigner.tsx:18-22 | An empty message, no signature, no verdict, not verifying. |
| MessageSigner.SignerPanel.HandleMessageChange | src/components/MessageSigner.tsx:24-31 | The message takes the new value. A present signature and its verdict are discarded; otherwise they are kept. |
| MessageSigner.SignerPanel.HandleSign | src/components/MessageSigner.tsx:33-40 | Nothing is asked of the wallet exactly when the message is blank; otherwise the message itself is sent for signing. |
| MessageSigner.SignerPanel.ReceiveSignature | src/components/MessageSigner.tsx:9-16 | The hook's `data` becomes the signature; nothing else changes. |
| MessageSigner.SignerPanel.BeginVerify | src/components/MessageSigner.tsx:42-49 | The check starts exactly when a signature, a message and an address are all present, and then `verifying` is set. |
| MessageSigner.SignerPanel.FinishVerify | src/components/MessageSigner.tsx:51-67 | The verdict becomes the outcome's text and `verifying` is cleared. |
| MessageSigner.SignerPanel.HandleVerify | src/components/MessageSigner.tsx:42-68 | With anything missing the state is unchanged. Otherwise the verdict is the outcome's text and the check is over. |
| MessageSigner.SignerPanel.ClearAll | src/components/MessageSigner.tsx:77-81 | Empties the message, the signature and the verdict. |
| App.UsdQuote | src/App.tsx:28-29 | A quote exists exactly when `ethereum.usd` is present and is a number, and it is that number. |
| App.PriceAfter | src/App.tsx:23-31 | A response that carries a numeric quote sets the price to that quote. Any other response keeps the previous price. |
| App.PriceAfterAllLastQuote | src/App.tsx:23-31 | A known price is never lost. After a series of responses the price is the quote of the last response that carried one, or the starting price when none did. |
| App.PriceCell.constructor | src/App.tsx:15 | The price starts unknown. |
| App.PriceCell.FetchEthPrice | src/App.tsx:17-35 | Only a numeric `ethereum.usd` replaces the price. A failed status, any other body or an exception keeps it. |
| App.VisiblePanels | src/App.tsx:61-92 | Exactly one panel shows: the spinner while connecting, the dashboard when connected, the call to connect otherwise. |

How `HistoryPanel.Settle` sets the state for each outcome:

- HTTP not ok: `errorMessage` becomes `Etherscan request failed: <statusText>`; the list is kept.
- `status === '1'`: `errorMessage` is unchanged; the list is replaced by the result.
- Any other API status: `errorMessage` becomes the API's message, or `Failed to load transactions` when it is empty; the list is emptied.
- A thrown `Error`: `errorMessage` becomes its message; the list is kept.
- Any other thrown value: `errorMessage` is unchanged; the list is kept.

In every case the spinner stops. Starting from no error, the view is
`ShownAfter(previous list, outcome)`.

## Left out

- `formatDate` (`src/utils/formatters.ts:31-39`). It formats a `Date` with the host's locale tables, which have no model here.
- The USD amounts (`Number(formatEther(...))`, multiplied by the price and shown with `toFixed`), each row's ether amount (`Number(formatEther(BigInt(tx.value))).toFixed(4)`, `TransactionHistory.tsx:256`) and the gas price in gwei. These are floating point; the price is held as a `real` and never computed with.
- TransactionHistory.FeeTextExact: the transaction fee is shown as `Number(formatEther(fee))` (`TransactionHistory.tsx:128-130`, `:284`). That IEEE double rounds after about 17 significant digits and may print in exponent form. The model proves only that `formatEther`'s text is exact, not the displayed number.
- The explorer link per chain. `BalanceDisplay`, `WalletInfo`, `NetworkSwitcher`, `PixelSnow` and `main.tsx` are not part of this model.
- The network and its timing:
  - The requests themselves, `URL` serialisation and JSON decoding. Each request is a parameter of the method that handles its answer.
  - Overlapping effect runs and stale answers. Each run is modelled as completing before the next starts.
- Etherscan's numeric fields are held as their integer values. `BigInt` parsing of the decimal strings, and the exception it raises on a malformed string, are not modelled.
- `chainId` is an integer. `String(chainId)` of a non-integer number is not modelled.
- Wallet signing and viem's `verifyMessage`. A signature arrives as a parameter and the verifier is an oracle (true, false or throws). `isPending` is an input of the button guard. `isError` and `error` only drive the sign-error banner (`MessageSigner.tsx:103-120`), which is markup and is not modelled.
- The text-area and verify-button `disabled` flags (`MessageSigner.tsx:149`, `:275`) and `copySignature`. They only forward state to the clipboard and the DOM.
- `alert`, toasts, `console` output and all markup.
- Formatters.ParseEther: this reader serves as the round-trip partner of `formatEther`, which is viem's and not part of the repository. It reads only the texts `formatEther` writes: an optional `-`, whole digits, and up to 18 fractional digits. viem's `parseEther` also accepts forms such as `.5` and rounds longer fractions; those forms are not modelled.
- Formatters.FormatBalance: `decimals` is an integer. A `NaN` or fractional count of places is not modelled.

## Findings

| source | as written | input that shows it | evidently intended | confidence | as-written member | corrected member |
|---|---|---|---|---|---|---|
| src/utils/formatters.ts:22-28 | `const [integer, fraction] = formatted.split('.')` leaves `fraction` undefined when `formatEther` writes no point, and `fraction.slice` then throws a `TypeError` unless `decimals` is 0 | `formatBalance(10n ** 18n)`, exactly 1 ether at the default 4 places | `1.0000`, with the fraction defaulting to `''` | high, not executed | Formatters.FormatBalanceWholeEtherThrows | Formatters.FormatBalanceFixedTruncates |
| src/components/MessageSigner.tsx:308-368 | The result styling tests `verificationResult.includes('valid')`, which the rejection text `❌ Signature is invalid` also contains, so a rejected signature gets the green styling and success icon | `verifyMessage` answering `false` | The match styling only for `✅ Signature is valid!` | high, not executed | MessageSigner.InvalidShownAsMatch | MessageSigner.ShownAsMatchFixedIff |
