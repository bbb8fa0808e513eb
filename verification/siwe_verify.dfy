/** The SIWE (Sign-In with Ethereum) nonce and address validator of the
    mini-app's wallet sign-in: `verifySiweMessage` checks that a wallet-auth
    payload carries a message, a signature and an address, finds the
    message's first `Nonce:` line, compares its value with the nonce the
    server issued, and reports the lower-cased signing address.

    The signature is only required to be non-empty; no cryptographic check
    happens here. */
module SiweVerify {
  import opened Options
  import opened JsStrings

  /* ---------------------------------------------------------------------
     Data model
     --------------------------------------------------------------------- */

  /** The fields of the wallet-auth success payload the validator reads.
      Each may be absent (`undefined`) or empty. */
  datatype Payload = Payload(message: Option<string>, signature: Option<string>, address: Option<string>)

  /** What a successful verification extracts from the message. */
  datatype SiweMessageData = SiweMessageData(address: string)

  /** The `VerifyResult` record: a validity flag, an optional error text and
      optional extracted data. */
  datatype VerifyResult = VerifyResult(isValid: bool, error: Option<string>, siweMessageData: Option<SiweMessageData>)

  const NoPayloadError := "No payload provided"
  const NoMessageError := "No message in payload"
  const NoSignatureError := "No signature in payload"
  const NoAddressError := "No address in payload"
  const NoNonceError := "No nonce found in message"

  const NoncePrefix := "Nonce:"
  const AddressPrefix := "address:"
  const LineBreak := '\n'

  /** The text reported when the message's nonce differs from the expected one. */
  function MismatchError(got: string, expected: string): string {
    "Nonce mismatch. Got: " + got + ", Expected: " + expected
  }

  function Invalid(error: string): VerifyResult {
    VerifyResult(false, Some(error), None)
  }

  function Valid(address: string): VerifyResult {
    VerifyResult(true, None, Some(SiweMessageData(address)))
  }

  /** The shape every result has: an invalid one carries an error and no
      data, a valid one carries data and no error. */
  predicate WellShaped(r: VerifyResult) {
    if r.isValid then r.error.None? && r.siweMessageData.Some?
    else r.error.Some? && r.siweMessageData.None?
  }

  /** Every required field is present and non-empty. */
  predicate FieldsPresent(payload: Option<Payload>) {
    payload.Some? && Truthy(payload.value.message)
    && Truthy(payload.value.signature) && Truthy(payload.value.address)
  }

  /* ---------------------------------------------------------------------
     The validator
     --------------------------------------------------------------------- */

  /** `verifySiweMessage(payload, nonce)`. */
  function VerifySiweMessage(payload: Option<Payload>, nonce: string): (r: VerifyResult)
    ensures WellShaped(r)
    ensures r.isValid ==> FieldsPresent(payload)
    ensures r.isValid ==> IsLowerCase(r.siweMessageData.value.address)
  {
    if payload.None? then Invalid(NoPayloadError)
    else if !Truthy(payload.value.message) then Invalid(NoMessageError)
    else if !Truthy(payload.value.signature) then Invalid(NoSignatureError)
    else if !Truthy(payload.value.address) then Invalid(NoAddressError)
    else
      var messageLines := Split(payload.value.message.value, LineBreak);
      var nonceLine := FindStartingWith(messageLines, NoncePrefix);
      if !Truthy(nonceLine) then Invalid(NoNonceError)
      else
        var messageNonce := Trim(ReplaceFirst(nonceLine.value, NoncePrefix, ""));
        if messageNonce != nonce then Invalid(MismatchError(messageNonce, nonce))
        else
          Valid(MessageAddress(messageLines, payload.value.address.value))
  }

  /** The address a successful verification reports: the first `address:`
      line's value if there is such a line, else the payload's address,
      lower-cased either way. */
  function MessageAddress(messageLines: seq<string>, payloadAddress: string): (address: string)
    ensures IsLowerCase(address)
  {
    var addressLine := FindStartingWith(messageLines, AddressPrefix);
    if Truthy(addressLine) then ToLower(Trim(ReplaceFirst(addressLine.value, AddressPrefix, "")))
    else ToLower(payloadAddress)
  }

  /* ---------------------------------------------------------------------
     Reference definition
     --------------------------------------------------------------------- */

  /** Line `i` is the first of `lines` starting with `p`. */
  predicate FirstLineWith(lines: seq<string>, p: string, i: int) {
    0 <= i < |lines| && StartsWith(lines[i], p)
    && forall j :: 0 <= j < i ==> !StartsWith(lines[j], p)
  }

  /** No line of `lines` starts with `p`. */
  predicate NoLineWith(lines: seq<string>, p: string) {
    forall j :: 0 <= j < |lines| ==> !StartsWith(lines[j], p)
  }

  /** The value a line carries after its key: the characters after the key,
      with surrounding whitespace removed. */
  function LineValue(line: string, key: string): string
    requires StartsWith(line, key)
  {
    Trim(line[|key|..])
  }

  /** The address a successful verification reports, stated line by line:
      the lower-cased value of the first `address:` line, or the lower-cased
      payload address when no line starts with `address:`. */
  ghost predicate ReportsAddress(lines: seq<string>, payloadAddress: string, address: string) {
    && (forall k :: FirstLineWith(lines, AddressPrefix, k) ==> address == ToLower(LineValue(lines[k], AddressPrefix)))
    && (NoLineWith(lines, AddressPrefix) ==> address == ToLower(payloadAddress))
  }

  /** What the validator is meant to return, stated without `find`, `replace`
      or truthiness: the first missing field in the order payload, message,
      signature, address decides the error; otherwise the first `Nonce:` line
      of the message decides validity, and a valid result reports the address. */
  ghost predicate Meets(payload: Option<Payload>, nonce: string, r: VerifyResult) {
    if payload.None? then r == Invalid(NoPayloadError)
    else if payload.value.message.None? || payload.value.message.value == "" then r == Invalid(NoMessageError)
    else if payload.value.signature.None? || payload.value.signature.value == "" then r == Invalid(NoSignatureError)
    else if payload.value.address.None? || payload.value.address.value == "" then r == Invalid(NoAddressError)
    else
      var lines := Split(payload.value.message.value, LineBreak);
      && (NoLineWith(lines, NoncePrefix) ==> r == Invalid(NoNonceError))
      && (forall i :: FirstLineWith(lines, NoncePrefix, i) ==>
            var got := LineValue(lines[i], NoncePrefix);
            && (got != nonce ==> r == Invalid(MismatchError(got, nonce)))
            && (got == nonce ==>
                  && r.isValid && r.error.None? && r.siweMessageData.Some?
                  && ReportsAddress(lines, payload.value.address.value, r.siweMessageData.value.address)))
  }

  /** The value the code extracts from the first line starting with `key`
      (`line.replace(key, "").trim()`) is that line's `LineValue`. */
  lemma FoundLineValue(lines: seq<string>, key: string)
    requires key != ""
    requires !NoLineWith(lines, key)
    ensures FindStartingWith(lines, key).Some?
    ensures FirstIndex(lines, key).Some?
    ensures FirstLineWith(lines, key, FirstIndex(lines, key).value)
    ensures Trim(ReplaceFirst(FindStartingWith(lines, key).value, key, ""))
            == LineValue(lines[FirstIndex(lines, key).value], key)
  {
    var i := FirstIndex(lines, key).value;
    ReplaceLeadingOccurrence(lines[i], key);
  }

  /** There is at most one first line with a given prefix. */
  lemma FirstLineUnique(lines: seq<string>, p: string, i: int, k: int)
    requires FirstLineWith(lines, p, i) && FirstLineWith(lines, p, k)
    ensures i == k
  {
  }

  /** `MessageAddress` reports the address the reference definition asks for. */
  lemma MessageAddressReported(lines: seq<string>, payloadAddress: string)
    ensures ReportsAddress(lines, payloadAddress, MessageAddress(lines, payloadAddress))
  {
    FoundLineIsTruthy(lines, AddressPrefix);
    if !NoLineWith(lines, AddressPrefix) {
      FoundLineValue(lines, AddressPrefix);
      var k0 := FirstIndex(lines, AddressPrefix).value;
      forall k | FirstLineWith(lines, AddressPrefix, k)
        ensures k == k0
      {
        FirstLineUnique(lines, AddressPrefix, k, k0);
      }
    }
  }

  /** The validator meets the reference definition. */
  lemma VerifyMeetsReference(payload: Option<Payload>, nonce: string)
    ensures Meets(payload, nonce, VerifySiweMessage(payload, nonce))
  {
    if FieldsPresent(payload) {
      var p := payload.value;
      var lines := Split(p.message.value, LineBreak);
      FoundLineIsTruthy(lines, NoncePrefix);
      if !NoLineWith(lines, NoncePrefix) {
        FoundLineValue(lines, NoncePrefix);
        var i0 := FirstIndex(lines, NoncePrefix).value;
        forall i | FirstLineWith(lines, NoncePrefix, i)
          ensures i == i0
        {
          FirstLineUnique(lines, NoncePrefix, i, i0);
        }
        MessageAddressReported(lines, p.address.value);
      }
    }
  }

  /** `ReportsAddress` allows only one address. */
  lemma ReportedAddressUnique(lines: seq<string>, payloadAddress: string, x: string, y: string)
    requires ReportsAddress(lines, payloadAddress, x) && ReportsAddress(lines, payloadAddress, y)
    ensures x == y
  {
    if !NoLineWith(lines, AddressPrefix) {
      var k := FirstIndex(lines, AddressPrefix).value;
      assert FirstLineWith(lines, AddressPrefix, k);
    }
  }

  /** The reference definition allows exactly one result, so it pins the
      validator down completely. */
  lemma ReferenceDeterminesResult(payload: Option<Payload>, nonce: string, r: VerifyResult)
    requires Meets(payload, nonce, r)
    ensures r == VerifySiweMessage(payload, nonce)
  {
    VerifyMeetsReference(payload, nonce);
    var v := VerifySiweMessage(payload, nonce);
    if FieldsPresent(payload) {
      var lines := Split(payload.value.message.value, LineBreak);
      if !NoLineWith(lines, NoncePrefix) {
        var i := FirstIndex(lines, NoncePrefix).value;
        assert FirstLineWith(lines, NoncePrefix, i);
        if LineValue(lines[i], NoncePrefix) == nonce {
          ReportedAddressUnique(lines, payload.value.address.value,
                                r.siweMessageData.value.address, v.siweMessageData.value.address);
        }
      }
    }
  }


  /* ---------------------------------------------------------------------
     Properties
     --------------------------------------------------------------------- */

  /** The error texts are pairwise distinct: the five fixed texts differ
      in their fourth character, and a mismatch text differs from all of
      them in its third. */
  lemma ErrorTextsDistinct(got: string, expected: string)
    ensures NoPayloadError != NoMessageError && NoPayloadError != NoSignatureError
    ensures NoPayloadError != NoAddressError && NoMessageError != NoSignatureError
    ensures NoMessageError != NoAddressError && NoSignatureError != NoAddressError
    ensures NoNonceError != NoPayloadError && NoNonceError != NoMessageError
    ensures NoNonceError != NoSignatureError && NoNonceError != NoAddressError
    ensures MismatchError(got, expected) != NoPayloadError && MismatchError(got, expected) != NoMessageError
    ensures MismatchError(got, expected) != NoSignatureError && MismatchError(got, expected) != NoAddressError
    ensures MismatchError(got, expected) != NoNonceError
  {
    assert NoPayloadError[3] == 'p' && NoMessageError[3] == 'm' && NoSignatureError[3] == 's';
    assert NoAddressError[3] == 'a' && NoNonceError[3] == 'n';
    assert NoPayloadError[2] == NoMessageError[2] == NoSignatureError[2] == ' ';
    assert NoAddressError[2] == NoNonceError[2] == ' ';
    assert MismatchError(got, expected)[2] == 'n';
  }

  /** Once every field is present, the only failures left are the missing
      nonce line and the mismatch, whose received nonce is `got`. */
  lemma FailureAfterFieldChecks(payload: Option<Payload>, nonce: string) returns (got: string)
    requires FieldsPresent(payload)
    ensures VerifySiweMessage(payload, nonce).isValid
            || VerifySiweMessage(payload, nonce) == Invalid(NoNonceError)
            || VerifySiweMessage(payload, nonce) == Invalid(MismatchError(got, nonce))
  {
    var lines := Split(payload.value.message.value, LineBreak);
    var nonceLine := FindStartingWith(lines, NoncePrefix);
    got := if nonceLine.Some? then Trim(ReplaceFirst(nonceLine.value, NoncePrefix, "")) else "";
  }

  /** The required fields are checked in the order payload, message,
      signature, address: each field error is reported exactly when that
      field is the first one absent or empty. */
  lemma FieldsCheckedInOrder(payload: Option<Payload>, nonce: string)
    ensures VerifySiweMessage(payload, nonce) == Invalid(NoPayloadError)
            <==> payload.None?
    ensures VerifySiweMessage(payload, nonce) == Invalid(NoMessageError)
            <==> payload.Some? && !Truthy(payload.value.message)
    ensures VerifySiweMessage(payload, nonce) == Invalid(NoSignatureError)
            <==> payload.Some? && Truthy(payload.value.message) && !Truthy(payload.value.signature)
    ensures VerifySiweMessage(payload, nonce) == Invalid(NoAddressError)
            <==> payload.Some? && Truthy(payload.value.message) && Truthy(payload.value.signature)
                 && !Truthy(payload.value.address)
  {
    var got := "";
    if FieldsPresent(payload) {
      got := FailureAfterFieldChecks(payload, nonce);
    }
    ErrorTextsDistinct(got, nonce);
  }

  /** With every field present, "No nonce found in message" is reported
      exactly when no line of the message starts with `Nonce:`. */
  lemma MissingNonceLine(payload: Option<Payload>, nonce: string)
    requires FieldsPresent(payload)
    ensures VerifySiweMessage(payload, nonce) == Invalid(NoNonceError)
            <==> NoLineWith(Split(payload.value.message.value, LineBreak), NoncePrefix)
  {
    var lines := Split(payload.value.message.value, LineBreak);
    FoundLineIsTruthy(lines, NoncePrefix);
    var got := FailureAfterFieldChecks(payload, nonce);
    ErrorTextsDistinct(got, nonce);
  }

  /** With every field present and a `Nonce:` line in the message, the result
      is valid exactly when the trimmed value of the first such line equals
      the expected nonce, character for character. */
  lemma NonceDecidesValidity(payload: Option<Payload>, nonce: string, i: nat)
    requires FieldsPresent(payload)
    requires FirstLineWith(Split(payload.value.message.value, LineBreak), NoncePrefix, i)
    ensures VerifySiweMessage(payload, nonce).isValid
            <==> LineValue(Split(payload.value.message.value, LineBreak)[i], NoncePrefix) == nonce
  {
    VerifyMeetsReference(payload, nonce);
  }

  /** A valid result means the message has a `Nonce:` line whose value, on
      the first such line, is exactly the expected nonce. */
  lemma ValidMeansNonceMatched(payload: Option<Payload>, nonce: string)
    requires VerifySiweMessage(payload, nonce).isValid
    ensures FieldsPresent(payload)
    ensures exists i :: FirstLineWith(Split(payload.value.message.value, LineBreak), NoncePrefix, i)
                        && LineValue(Split(payload.value.message.value, LineBreak)[i], NoncePrefix) == nonce
  {
    var lines := Split(payload.value.message.value, LineBreak);
    FoundLineIsTruthy(lines, NoncePrefix);
    FoundLineValue(lines, NoncePrefix);
  }

  /** The mismatch text starts with "Nonce mismatch." and contains both
      the nonce found and the nonce expected. */
  lemma MismatchErrorNamesBoth(got: string, expected: string)
    ensures StartsWith(MismatchError(got, expected), "Nonce mismatch.")
    ensures Contains(MismatchError(got, expected), got)
    ensures Contains(MismatchError(got, expected), expected)
  {
    var head := "Nonce mismatch. Got: ";
    var err := MismatchError(got, expected);
    assert err == head + got + ", Expected: " + expected;
    assert err[|head|..|head| + |got|] == got;
    assert OccursAt(err, got, |head|);
    assert err[|err| - |expected|..] == expected;
    assert OccursAt(err, expected, |err| - |expected|);
    assert err[..|"Nonce mismatch."|] == head[..|"Nonce mismatch."|];
  }

  /** On a mismatch the error text names both the nonce found in the message
      and the expected one. */
  lemma MismatchNamesBothNonces(payload: Option<Payload>, nonce: string, i: nat)
    requires FieldsPresent(payload)
    requires FirstLineWith(Split(payload.value.message.value, LineBreak), NoncePrefix, i)
    requires LineValue(Split(payload.value.message.value, LineBreak)[i], NoncePrefix) != nonce
    ensures !VerifySiweMessage(payload, nonce).isValid
    ensures VerifySiweMessage(payload, nonce).error.Some?
    ensures StartsWith(VerifySiweMessage(payload, nonce).error.value, "Nonce mismatch.")
    ensures Contains(VerifySiweMessage(payload, nonce).error.value, LineValue(Split(payload.value.message.value, LineBreak)[i], NoncePrefix))
    ensures Contains(VerifySiweMessage(payload, nonce).error.value, nonce)
  {
    VerifyMeetsReference(payload, nonce);
    MismatchErrorNamesBoth(LineValue(Split(payload.value.message.value, LineBreak)[i], NoncePrefix), nonce);
  }

  /** Only the first `Nonce:` line matters: two messages whose lines agree up
      to and including a `Nonce:` line get the same verdict and error, whatever
      follows; when an `address:` line also lies in the shared lines, the
      results are identical. */
  lemma OnlyFirstNonceLineMatters(payload: Payload, other: string, nonce: string, n: nat)
    requires FieldsPresent(Some(payload))
    requires n <= |Split(payload.message.value, LineBreak)| && n <= |Split(other, LineBreak)|
    requires Split(payload.message.value, LineBreak)[..n] == Split(other, LineBreak)[..n]
    requires exists j :: 0 <= j < n && StartsWith(Split(payload.message.value, LineBreak)[j], NoncePrefix)
    ensures VerifySiweMessage(Some(payload.(message := Some(other))), nonce).isValid
            == VerifySiweMessage(Some(payload), nonce).isValid
    ensures VerifySiweMessage(Some(payload.(message := Some(other))), nonce).error
            == VerifySiweMessage(Some(payload), nonce).error
    ensures (exists j :: 0 <= j < n && StartsWith(Split(payload.message.value, LineBreak)[j], AddressPrefix))
            ==> VerifySiweMessage(Some(payload.(message := Some(other))), nonce) == VerifySiweMessage(Some(payload), nonce)
  {
    var a := Split(payload.message.value, LineBreak);
    var b := Split(other, LineBreak);
    var j :| 0 <= j < n && StartsWith(a[j], NoncePrefix);
    assert a[j] == b[j] by { assert a[..n][j] == b[..n][j]; }
    assert Split("", LineBreak) == [""];
    var p2 := payload.(message := Some(other));
    SameFoundLine(a, b, NoncePrefix, n);
    var r1 := VerifySiweMessage(Some(payload), nonce);
    var r2 := VerifySiweMessage(Some(p2), nonce);
    assert FieldsPresent(Some(p2));
    FoundLineIsTruthy(a, NoncePrefix);
    FoundLineIsTruthy(a, AddressPrefix);
    FoundLineIsTruthy(b, AddressPrefix);
    if exists k :: 0 <= k < n && StartsWith(a[k], AddressPrefix) {
      SameFoundLine(a, b, AddressPrefix, n);
    }
  }

  /** Line sequences agreeing on their first `n` lines, among which a line
      starts with `p`, yield the same line from `find`. */
  lemma SameFoundLine(a: seq<string>, b: seq<string>, p: string, n: nat)
    requires n <= |a| && n <= |b| && a[..n] == b[..n]
    requires exists j :: 0 <= j < n && StartsWith(a[j], p)
    ensures FindStartingWith(a, p).Some?
    ensures FindStartingWith(a, p) == FindStartingWith(b, p)
  {
    FirstIndexOfSharedPrefix(a, b, p, n);
    var i := FirstIndex(a, p).value;
    assert a[i] == b[i] by { assert a[..n][i] == b[..n][i]; }
  }

  /** A successful verification reports the lower-cased value of the first
      `address:` line, or the lower-cased payload address when the message
      has no such line; lower-casing it again changes nothing. */
  lemma SuccessReportsAddress(payload: Option<Payload>, nonce: string)
    requires VerifySiweMessage(payload, nonce).isValid
    ensures FieldsPresent(payload)
    ensures ReportsAddress(Split(payload.value.message.value, LineBreak), payload.value.address.value,
                           VerifySiweMessage(payload, nonce).siweMessageData.value.address)
    ensures ToLower(VerifySiweMessage(payload, nonce).siweMessageData.value.address)
            == VerifySiweMessage(payload, nonce).siweMessageData.value.address
  {
    VerifyMeetsReference(payload, nonce);
    var lines := Split(payload.value.message.value, LineBreak);
    FoundLineIsTruthy(lines, NoncePrefix);
    FoundLineValue(lines, NoncePrefix);
    ToLowerFixpoint(VerifySiweMessage(payload, nonce).siweMessageData.value.address);
  }

  /** The signature is read only for presence: swapping one non-empty
      signature for another leaves the result unchanged. */
  lemma SignatureContentIgnored(payload: Payload, signature: string, nonce: string)
    requires Truthy(payload.signature) && signature != ""
    ensures VerifySiweMessage(Some(payload.(signature := Some(signature))), nonce)
            == VerifySiweMessage(Some(payload), nonce)
  {
  }

  /* ---------------------------------------------------------------------
     Worked examples

     The concrete strings are passed in as parameters fixed by `requires`,
     which keeps the verifier from unfolding the recursive string functions
     character by character on literals.
     --------------------------------------------------------------------- */

  function ExamplePayload(message: string): Payload {
    Payload(Some(message), Some("0xsig"), Some("0xPAYLOAD"))
  }

  /** A `key value` line carries `value` when `value` is already trimmed. */
  lemma ValueOfKeyLine(line: string, key: string, value: string)
    requires line == key + " " + value
    requires IsTrimmed(value)
    ensures StartsWith(line, key)
    ensures LineValue(line, key) == value
  {
    assert line[..|key|] == key;
    TrimOfPadded(" ", value, "");
    assert line[|key|..] == " " + value + "";
  }

  /** Joining three lines puts the separator between them. */
  lemma JoinThree(a: string, b: string, c: string, sep: char)
    ensures Join([a, b, c], sep) == a + [sep] + b + [sep] + c
  {
    assert [b, c][1..] == [c];
    assert Join([b, c], sep) == b + [sep] + c;
    assert [a, b, c][1..] == [b, c];
    assert Join([a, b, c], sep) == a + [sep] + (b + [sep] + c);
  }

  lemma JoinExampleLines(message: string, lines: seq<string>)
    requires message == "Sign in" + "\n" + "address: 0xABC...123" + "\n" + "Nonce: abc123XY"
    requires lines == ["Sign in", "address: 0xABC...123", "Nonce: abc123XY"]
    ensures Join(lines, LineBreak) == message
  {
    var a, b, c := lines[0], lines[1], lines[2];
    assert lines == [a, b, c];
    JoinThree(a, b, c, LineBreak);
    assert [LineBreak] == "\n";
  }

  /** The example message splits into its three lines. */
  lemma ExampleLines(message: string, lines: seq<string>)
    requires message == "Sign in" + "\n" + "address: 0xABC...123" + "\n" + "Nonce: abc123XY"
    requires lines == ["Sign in", "address: 0xABC...123", "Nonce: abc123XY"]
    ensures Split(message, LineBreak) == lines
  {
    JoinExampleLines(message, lines);
    SplitJoin(lines, LineBreak);
  }

  /** In the example's lines the third is the first `Nonce:` line, carrying
      the nonce written after the key. */
  lemma ExampleNonceLine(lines: seq<string>, nonce: string)
    requires lines == ["Sign in", "address: 0xABC...123", "Nonce: abc123XY"]
    requires nonce == "abc123XY"
    ensures FirstLineWith(lines, NoncePrefix, 2) && LineValue(lines[2], NoncePrefix) == nonce
  {
    NotNonceLine(lines[0]);
    NotNonceLine(lines[1]);
    ThirdLineFirstWith(lines, NoncePrefix);
    ExampleNonceValue(lines[2], nonce);
  }

  lemma ThirdLineFirstWith(lines: seq<string>, p: string)
    requires |lines| == 3
    requires !StartsWith(lines[0], p) && !StartsWith(lines[1], p) && StartsWith(lines[2], p)
    ensures FirstLineWith(lines, p, 2)
  {
  }

  lemma NotNonceLine(line: string)
    requires line == "Sign in" || line == "address: 0xABC...123"
    ensures !StartsWith(line, NoncePrefix)
  {
    assert line[0] != NoncePrefix[0];
  }

  lemma ExampleNonceValue(line: string, nonce: string)
    requires line == "Nonce: abc123XY" && nonce == "abc123XY"
    ensures StartsWith(line, NoncePrefix) && LineValue(line, NoncePrefix) == nonce
  {
    assert line == NoncePrefix + " " + nonce;
    ValueOfKeyLine(line, NoncePrefix, nonce);
  }

  /** In the example's lines the second is the first `address:` line,
      carrying the address written after the key. */
  lemma ExampleAddressLine(lines: seq<string>, lineAddress: string)
    requires lines == ["Sign in", "address: 0xABC...123", "Nonce: abc123XY"]
    requires lineAddress == "0xABC...123"
    ensures FirstLineWith(lines, AddressPrefix, 1) && LineValue(lines[1], AddressPrefix) == lineAddress
  {
    assert lines[0][0] != AddressPrefix[0];
    ExampleAddressValue(lines[1], lineAddress);
  }

  lemma ExampleAddressValue(line: string, lineAddress: string)
    requires line == "address: 0xABC...123" && lineAddress == "0xABC...123"
    ensures StartsWith(line, AddressPrefix) && LineValue(line, AddressPrefix) == lineAddress
  {
    assert line == AddressPrefix + " " + lineAddress;
    ValueOfKeyLine(line, AddressPrefix, lineAddress);
  }

  lemma LowerExampleAddress(lineAddress: string, address: string)
    requires lineAddress == "0xABC...123" && address == "0xabc...123"
    ensures ToLower(lineAddress) == address
  {
    forall i | 0 <= i < |address| ensures ToLower(lineAddress)[i] == address[i] { }
  }

  /** The matching nonce is accepted and the `address:` line is reported in
      lower case. */
  lemma ExampleAccepted(message: string, nonce: string, address: string)
    requires message == "Sign in" + "\n" + "address: 0xABC...123" + "\n" + "Nonce: abc123XY"
    requires nonce == "abc123XY" && address == "0xabc...123"
    ensures VerifySiweMessage(Some(ExamplePayload(message)), nonce) == Valid(address)
  {
    var lines: seq<string>, lineAddress: string :| lines == ["Sign in", "address: 0xABC...123", "Nonce: abc123XY"] && lineAddress == "0xABC...123";
    ExampleLines(message, lines);
    ExampleNonceLine(lines, nonce);
    ExampleAddressLine(lines, lineAddress);
    LowerExampleAddress(lineAddress, address);
    VerifyMeetsReference(Some(ExamplePayload(message)), nonce);
  }

  /** A different expected nonce is rejected, and the error names both nonces. */
  lemma ExampleRejected(message: string, nonce: string, got: string)
    requires message == "Sign in" + "\n" + "address: 0xABC...123" + "\n" + "Nonce: abc123XY"
    requires nonce == "different" && got == "abc123XY"
    ensures VerifySiweMessage(Some(ExamplePayload(message)), nonce) == Invalid(MismatchError(got, nonce))
  {
    var lines: seq<string> :| lines == ["Sign in", "address: 0xABC...123", "Nonce: abc123XY"];
    ExampleLines(message, lines);
    ExampleNonceLine(lines, got);
    VerifyMeetsReference(Some(ExamplePayload(message)), nonce);
  }

  /** A message without a `Nonce:` line is rejected. */
  lemma ExampleNoNonce(message: string, nonce: string)
    requires message == "Sign in\naddress: 0xABC"
    ensures VerifySiweMessage(Some(ExamplePayload(message)), nonce) == Invalid(NoNonceError)
  {
    var lines: seq<string> :| lines == ["Sign in", "address: 0xABC"];
    assert Join(lines[1..], LineBreak) == lines[1];
    assert Join(lines, LineBreak) == message;
    SplitJoin(lines, LineBreak);
    assert lines[0][0] != NoncePrefix[0] && lines[1][0] != NoncePrefix[0];
    MissingNonceLine(Some(ExamplePayload(message)), nonce);
  }

  /** The expected nonce is not required to be non-empty: with an empty
      expected nonce, a bare `Nonce:` line is accepted, and without an
      `address:` line the payload address is reported. */
  lemma EmptyNonceAcceptsBareNonceLine(message: string, address: string)
    requires message == "Nonce:" && address == "0xpayload"
    ensures VerifySiweMessage(Some(ExamplePayload(message)), "") == Valid(address)
  {
    BareNonceLine(message);
    var payloadAddress := ExamplePayload(message).address.value;
    LowerExamplePayloadAddress(payloadAddress, address);
    VerifyMeetsReference(Some(ExamplePayload(message)), "");
  }

  /** The message "Nonce:" is a single `Nonce:` line with an empty value and
      no `address:` line. */
  lemma BareNonceLine(message: string)
    requires message == "Nonce:"
    ensures Split(message, LineBreak) == [message]
    ensures FirstLineWith([message], NoncePrefix, 0) && LineValue(message, NoncePrefix) == ""
    ensures NoLineWith([message], AddressPrefix)
  {
    SplitOfSeparatorFree(message, LineBreak);
    assert message[0] != AddressPrefix[0];
  }

  lemma LowerExamplePayloadAddress(payloadAddress: string, address: string)
    requires payloadAddress == "0xPAYLOAD" && address == "0xpayload"
    ensures ToLower(payloadAddress) == address
  {
    forall i | 0 <= i < |address| ensures ToLower(payloadAddress)[i] == address[i] { }
  }

}
