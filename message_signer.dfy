/**
 * The message signer panel: the text being signed, the signature the
 * wallet returned, the outcome of checking that signature against the
 * connected address, and the handlers that move between them. The wallet's
 * signing and viem's `verifyMessage` are outside the model: a signature
 * arrives as a parameter, and the verifier is an oracle that answers true,
 * false or throws.
 */
module MessageSigner {
  import opened Wrappers
  import opened JsStrings

  const ValidText := "✅ Signature is valid!"
  const InvalidText := "❌ Signature is invalid"
  const FailedText := "❌ Verification failed"

  /** What `verifyMessage` does with the address, message and signature. */
  datatype VerifyOutcome = Verified(isValid: bool) | VerifyThrew

  /** The text the verify handler stores for each verifier outcome. */
  function ResultText(outcome: VerifyOutcome): (r: string)
    ensures r == ValidText <==> outcome == Verified(true)
    ensures r == InvalidText <==> outcome == Verified(false)
    ensures r == FailedText <==> outcome == VerifyThrew
  {
    match outcome
    case Verified(isValid) => if isValid then ValidText else InvalidText
    case VerifyThrew => FailedText
  }

  /** `!message.trim()`: nothing but whitespace. */
  predicate Blank(message: string) {
    forall i :: 0 <= i < |message| ==> IsJsWhitespace(message[i])
  }

  /**
   * `!(!message.trim() || isPending || !address)`: the sign button is
   * enabled exactly when the message is not blank, no request is pending and
   * an address is connected.
   */
  predicate SignEnabled(message: string, isPending: bool, address: Option<string>)
    ensures SignEnabled(message, isPending, address) <==> !Blank(message) && !isPending && Truthy(address)
  {
    TrimEmptyIffBlank(message);
    !(Trim(message) == "" || isPending || !Truthy(address))
  }

  /**
   * The panel's green "matches" styling, as written: any result text that
   * contains `valid`. Both texts a verifier answer stores contain it; a
   * text without a `v` cannot.
   */
  predicate ShownAsMatch(result: string)
    ensures result == ValidText || result == InvalidText ==> ShownAsMatch(result)
    ensures 'v' !in result ==> !ShownAsMatch(result)
  {
    assert MatchesAt(ValidText, "valid", 15);
    assert MatchesAt(InvalidText, "valid", 17);
    IncludesFirst(result, "valid");
    Includes(result, "valid")
  }

  /** The green styling reserved for the one text a successful check stores. */
  predicate ShownAsMatchFixed(result: string) {
    result == ValidText
  }

  /**
   * As written, the styling cannot tell a rejected signature from an
   * accepted one: both verifier answers are shown as a match and only an
   * exception is shown as a failure.
   */
  lemma ShownAsMatchIff(outcome: VerifyOutcome)
    ensures ShownAsMatch(ResultText(outcome)) <==> outcome.Verified?
  {
    if outcome == VerifyThrew {
      assert 'v' !in FailedText;
    }
  }

  /** The rejected signature's text is styled as a match. */
  lemma InvalidShownAsMatch()
    ensures ShownAsMatch(ResultText(Verified(false)))
  {
  }

  /** With the exact comparison, the panel shows a match exactly when the verifier accepted the signature. */
  lemma ShownAsMatchFixedIff(outcome: VerifyOutcome)
    ensures ShownAsMatchFixed(ResultText(outcome)) <==> outcome == Verified(true)
  {
  }

  /** The component's state cells, with `signature` standing for the signing hook's `data`. */
  class SignerPanel {
    var message: string
    var signature: Option<string>
    var verificationResult: Option<string>
    var verifying: bool

    constructor ()
      ensures message == "" && signature == None && verificationResult == None && !verifying
    {
      message := "";
      signature := None;
      verificationResult := None;
      verifying := false;
    }

    /** Typing into the text area: a stale signature and its verdict are discarded. */
    method HandleMessageChange(value: string)
      modifies this
      ensures message == value && verifying == old(verifying)
      ensures Truthy(old(signature)) ==> signature == None && verificationResult == None
      ensures !Truthy(old(signature)) ==>
        signature == old(signature) && verificationResult == old(verificationResult)
    {
      message := value;
      if Truthy(signature) {
        signature := None;
        verificationResult := None;
      }
    }

    /** The sign button's handler: the message it asks the wallet to sign, if any. */
    method HandleSign() returns (request: Option<string>)
      ensures request.None? <==> Blank(message)
      ensures request.Some? ==> request.value == message
    {
      TrimEmptyIffBlank(message);
      if Trim(message) == "" {
        return None;
      }
      request := Some(message);
    }

    /** The signing hook's `data` once the wallet has signed. */
    method ReceiveSignature(sig: string)
      modifies this
      ensures signature == Some(sig)
      ensures message == old(message) && verificationResult == old(verificationResult)
      ensures verifying == old(verifying)
    {
      signature := Some(sig);
    }

    /**
     * The synchronous part of the verify handler: with a signature, a
     * message and an address it marks the check as running; otherwise it
     * changes nothing.
     */
    method BeginVerify(address: Option<string>) returns (started: bool)
      modifies this
      ensures started <==> Truthy(old(signature)) && message != "" && Truthy(address)
      ensures started ==> verifying
      ensures !started ==> verifying == old(verifying)
      ensures message == old(message) && signature == old(signature)
      ensures verificationResult == old(verificationResult)
    {
      if !Truthy(signature) || message == "" || !Truthy(address) {
        return false;
      }
      verifying := true;
      started := true;
    }

    /** The rest of the verify handler once the verifier has answered, `finally` included. */
    method FinishVerify(outcome: VerifyOutcome)
      modifies this
      ensures verificationResult == Some(ResultText(outcome))
      ensures !verifying
      ensures message == old(message) && signature == old(signature)
    {
      match outcome {
        case Verified(isValid) =>
          if isValid {
            verificationResult := Some(ValidText);
          } else {
            verificationResult := Some(InvalidText);
          }
        case VerifyThrew =>
          verificationResult := Some(FailedText);
      }
      verifying := false;
    }

    /** The whole verify handler for one verifier outcome. */
    method HandleVerify(address: Option<string>, outcome: VerifyOutcome)
      modifies this
      ensures message == old(message) && signature == old(signature)
      ensures !(Truthy(old(signature)) && old(message) != "" && Truthy(address)) ==>
        verificationResult == old(verificationResult) && verifying == old(verifying)
      ensures Truthy(old(signature)) && old(message) != "" && Truthy(address) ==>
        verificationResult == Some(ResultText(outcome)) && !verifying
    {
      var started := BeginVerify(address);
      if started {
        FinishVerify(outcome);
      }
    }

    /** The Clear button: an empty message, no signature, no verdict. */
    method ClearAll()
      modifies this
      ensures message == "" && signature == None && verificationResult == None
      ensures verifying == old(verifying)
    {
      message := "";
      signature := None;
      verificationResult := None;
    }
  }
}
