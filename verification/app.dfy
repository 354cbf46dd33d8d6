/** The workflows of app/main.py: deploying contracts, invoking a function through
    the caller's account contract, and calling a view function.

    The results are the transactions the client hands to the gateway; what the
    gateway does with them is outside the model, except that a Deploy answer
    carries the new contract's address.
 */
module App {
  import opened Failures
  import opened Records
  import opened Sdk
  import opened HexCodec
  import opened Decimal

  /** `parse_inputs`, with its ValueError as a failure. */
  function ParseInputs(sdk: Primitives, inputs: seq<string>): Result<seq<int>>
  {
    Need(sdk.parseInputs(inputs), InvalidInputs)
  }

  // ---------------------------------------------------------------------------
  // deploy and deploy_from_manifest

  /** The Deploy transaction built by `deploy`: compile the source, then parse the
      constructor inputs; the salt is always zero. */
  function DeployTransaction(sdk: Primitives, source: string, inputs: seq<string>): (r: Result<Transaction>)
    ensures r.Success? <==> sdk.compile(source).Some? && sdk.parseInputs(inputs).Some?
    ensures sdk.compile(source).None? ==> r == Failure(CompilationFailed)
    ensures sdk.compile(source).Some? && sdk.parseInputs(inputs).None? ==> r == Failure(InvalidInputs)
    ensures r.Success? ==> r.value.DeployTx? && r.value.contractAddressSalt == 0
    ensures r.Success? ==>
      && r.value.contractDefinition == sdk.compile(source).value
      && r.value.constructorCalldata == sdk.parseInputs(inputs).value
  {
    var definition :- Need(sdk.compile(source), CompilationFailed);
    var calldata :- ParseInputs(sdk, inputs);
    Success(DeployTx(0, definition, calldata))
  }

  /** `deploy`: submit the Deploy transaction and return the ABI with the gateway's answer. */
  function Deploy(sdk: Primitives, gateway: Gateway, source: string, inputs: seq<string>): (r: Result<(Abi, Response)>)
    ensures r.Success? <==>
      DeployTransaction(sdk, source, inputs).Success? && gateway(DeployTransaction(sdk, source, inputs).value).Some?
    ensures DeployTransaction(sdk, source, inputs).Failure? ==> r.Failure? && r.error == DeployTransaction(sdk, source, inputs).error
    ensures DeployTransaction(sdk, source, inputs).Success? && r.Failure? ==> r.error == GatewayRejected
    ensures r.Success? ==>
      && r.value.0 == sdk.compile(source).value.abi
      && gateway(DeployTransaction(sdk, source, inputs).value) == Some(r.value.1)
  {
    var tx :- DeployTransaction(sdk, source, inputs);
    var response :- Need(gateway(tx), GatewayRejected);
    Success((tx.contractDefinition.abi, response))
  }

  /** One step of `deploy_from_manifest`: deploy an entry and describe it as an artifact. */
  function DeployEntry(sdk: Primitives, gateway: Gateway, entry: ManifestEntry): (r: Result<(Response, Artifact)>)
    ensures r.Success? <==> Deploy(sdk, gateway, entry.source, entry.inputs).Success?
    ensures r.Failure? ==> r.error == Deploy(sdk, gateway, entry.source, entry.inputs).error
    ensures r.Success? ==>
      && r.value.0 == Deploy(sdk, gateway, entry.source, entry.inputs).value.1
      && r.value.1.name == entry.name
      && r.value.1.contractAddress == r.value.0.address
      && r.value.1.abi == sdk.compile(entry.source).value.abi
  {
    var (abi, response) :- Deploy(sdk, gateway, entry.source, entry.inputs);
    Success((response, Artifact(entry.name, response.address, abi)))
  }

  /** What the `deploy_from_manifest` generator produces before it stops: the pairs
      it yielded, and the error it raised, if any. */
  datatype DeployRun = DeployRun(yielded: seq<(Response, Artifact)>, failure: Option<Error>)

  /** `deploy_from_manifest`: one pair per entry, in manifest order, up to the first
      entry whose deployment fails. */
  function DeployFromManifest(sdk: Primitives, gateway: Gateway, manifest: seq<ManifestEntry>): (run: DeployRun)
    ensures |run.yielded| <= |manifest|
    ensures forall i :: 0 <= i < |run.yielded| ==> DeployEntry(sdk, gateway, manifest[i]) == Success(run.yielded[i])
    ensures run.failure.None? <==> |run.yielded| == |manifest|
    ensures run.failure.Some? ==> DeployEntry(sdk, gateway, manifest[|run.yielded|]) == Failure(run.failure.value)
    decreases |manifest|
  {
    if |manifest| == 0 then
      DeployRun([], None)
    else
      match DeployEntry(sdk, gateway, manifest[0])
      case Failure(e) => DeployRun([], Some(e))
      case Success(item) =>
        var rest := DeployFromManifest(sdk, gateway, manifest[1..]);
        DeployRun([item] + rest.yielded, rest.failure)
  }

  // ---------------------------------------------------------------------------
  // invoke and call

  /** `invoke`: an InvokeFunction transaction carrying the signature pair as a list of two. */
  function Invoke(sdk: Primitives, contractAddress: int, entryPoint: string, calldata: seq<int>, signature: (int, int)): (tx: Transaction)
    ensures tx.InvokeTx? && tx.contractAddress == contractAddress && tx.calldata == calldata
    ensures tx.entryPointSelector == sdk.selectorFromName(entryPoint)
    ensures |tx.signature| == 2 && tx.signature[0] == signature.0 && tx.signature[1] == signature.1
  {
    InvokeTx(contractAddress, sdk.selectorFromName(entryPoint), calldata, [signature.0, signature.1])
  }

  /** `call`: the same transaction shape, sent unsigned. */
  function Call(sdk: Primitives, contractAddress: int, entryPoint: string, calldata: seq<int>): (tx: Transaction)
    ensures tx.InvokeTx? && tx.contractAddress == contractAddress && tx.calldata == calldata
    ensures tx.entryPointSelector == sdk.selectorFromName(entryPoint)
    ensures tx.signature == []
  {
    InvokeTx(contractAddress, sdk.selectorFromName(entryPoint), calldata, [])
  }

  // ---------------------------------------------------------------------------
  // invoke_through_account

  /** The entry point of the account contract that forwards a call. */
  const ExecuteEntryPoint := "execute"

  /** The arguments of `execute`, as strings: target, selector, argument count,
      the arguments, and a trailing zero. */
  function ExecuteCalldata(target: string, selector: nat, inputs: seq<string>): (cd: seq<string>)
    ensures |cd| == |inputs| + 4
    ensures cd[0] == target && cd[1] == ToDecimal(selector) && cd[2] == ToDecimal(|inputs|)
    ensures cd[3..|cd| - 1] == inputs && cd[|cd| - 1] == "0"
  {
    [target, ToDecimal(selector), ToDecimal(|inputs|)] + inputs + ["0"]
  }

  /** The five elements the account signs over; the account contract hashes the same
      five, in the same order, to check the signature. */
  function MessageTuple(accountAddress: int, target: int, selector: nat, argsHash: int): (t: seq<int>)
    ensures |t| == 5
    ensures t[0] == accountAddress && t[1] == target && t[2] == selector && t[3] == argsHash && t[4] == 0
  {
    [accountAddress, target, selector, argsHash, 0]
  }

  function MessageHash(sdk: Primitives, accountAddress: int, target: int, selector: nat, args: seq<int>): int
  {
    sdk.hashOnElements(MessageTuple(accountAddress, target, selector, sdk.hashOnElements(args)))
  }

  /** `invoke_through_account`: sign the call and send it to the account's own
      contract, whose `execute` forwards it to the target. */
  function InvokeThroughAccount(sdk: Primitives, account: Account, contractAddress: string, entryPoint: string, inputs: seq<string>): (r: Result<Transaction>)
    ensures r.Success? <==>
      && HexToInt(contractAddress).Success?
      && sdk.parseInputs(inputs).Some?
      && sdk.parseInputs(ExecuteCalldata(contractAddress, sdk.selectorFromName(entryPoint), inputs)).Some?
    ensures HexToInt(contractAddress).Failure? ==> r == Failure(InvalidLiteral)
    ensures HexToInt(contractAddress).Success? && r.Failure? ==> r == Failure(InvalidInputs)
    ensures r.Success? ==>
      && r.value.InvokeTx?
      && r.value.contractAddress == account.contractAddress
      && r.value.entryPointSelector == sdk.selectorFromName(ExecuteEntryPoint)
      && sdk.parseInputs(ExecuteCalldata(contractAddress, sdk.selectorFromName(entryPoint), inputs)) == Some(r.value.calldata)
    ensures r.Success? ==>
      var message := MessageHash(sdk, account.contractAddress, HexToInt(contractAddress).value,
                                 sdk.selectorFromName(entryPoint), sdk.parseInputs(inputs).value);
      var signature := sdk.sign(message, account.privateKey);
      r.value.signature == [signature.0, signature.1]
  {
    var selector := sdk.selectorFromName(entryPoint);
    var calldata := ExecuteCalldata(contractAddress, selector, inputs);
    var target :- HexToInt(contractAddress);
    var args :- ParseInputs(sdk, inputs);
    var signature := sdk.sign(MessageHash(sdk, account.contractAddress, target, selector, args), account.privateKey);
    var executeArgs :- ParseInputs(sdk, calldata);
    Success(Invoke(sdk, account.contractAddress, ExecuteEntryPoint, executeArgs, signature))
  }

  // ---------------------------------------------------------------------------
  // The account contract's side of the agreement

  /** A forwarded call as the account contract's `execute` receives it. */
  datatype ExecuteCall = ExecuteCall(target: string, selector: nat, args: seq<string>, nonce: string)

  /** Reads `execute` arguments in the layout the account contract expects: target,
      selector, argument count, that many arguments, then the nonce as the last element. */
  function ReadExecuteCalldata(cd: seq<string>): Option<ExecuteCall>
  {
    if |cd| < 4 then None
    else
      match (ParseDecimal(cd[1]), ParseDecimal(cd[2]))
      case (Some(selector), Some(n)) =>
        if |cd| == n + 4 then Some(ExecuteCall(cd[0], selector, cd[3..3 + n], cd[3 + n])) else None
      case _ => None
  }

  /** The layout round-trips: the account contract reads back exactly the target,
      selector and inputs the client wrote, in order, with a zero nonce. */
  lemma LemmaExecuteRoundTrip(target: string, selector: nat, inputs: seq<string>)
    ensures ReadExecuteCalldata(ExecuteCalldata(target, selector, inputs)) == Some(ExecuteCall(target, selector, inputs, "0"))
  {
    var cd := ExecuteCalldata(target, selector, inputs);
    LemmaDecimalRoundTrip(selector);
    LemmaDecimalRoundTrip(|inputs|);
    assert cd[3..3 + |inputs|] == inputs;
  }

  /** Different calls never share one calldata list. */
  lemma LemmaExecuteCalldataInjective(t1: string, s1: nat, in1: seq<string>, t2: string, s2: nat, in2: seq<string>)
    ensures ExecuteCalldata(t1, s1, in1) == ExecuteCalldata(t2, s2, in2) <==> t1 == t2 && s1 == s2 && in1 == in2
  {
    LemmaExecuteRoundTrip(t1, s1, in1);
    LemmaExecuteRoundTrip(t2, s2, in2);
  }

  /** The message tuple determines all four of its inputs, so swapping the account and
      target addresses, or changing any of them, changes the tuple. */
  lemma LemmaMessageTupleInjective(a1: int, t1: int, s1: nat, h1: int, a2: int, t2: int, s2: nat, h2: int)
    ensures MessageTuple(a1, t1, s1, h1) == MessageTuple(a2, t2, s2, h2) <==> a1 == a2 && t1 == t2 && s1 == s2 && h1 == h2
  {
  }

  /** The account contract accepts `signature` for `call` when it was made with the
      account's key over the hash of [account, target, selector, hash(args), nonce]. */
  predicate Authorizes(sdk: Primitives, account: Account, call: ExecuteCall, signature: seq<int>)
  {
    && ParseDecimal(call.nonce) == Some(0)
    && HexToInt(call.target).Success?
    && sdk.parseInputs(call.args).Some?
    && var pair := sdk.sign(MessageHash(sdk, account.contractAddress, HexToInt(call.target).value,
                                        call.selector, sdk.parseInputs(call.args).value), account.privateKey);
       signature == [pair.0, pair.1]
  }

  /** What the client signs is what the account contract checks: the execute arguments
      it sends read back as a call that the attached signature authorizes. */
  lemma LemmaSignatureCoversExecuteCall(sdk: Primitives, account: Account, contractAddress: string, entryPoint: string, inputs: seq<string>)
    requires InvokeThroughAccount(sdk, account, contractAddress, entryPoint, inputs).Success?
    ensures var tx := InvokeThroughAccount(sdk, account, contractAddress, entryPoint, inputs).value;
      var cd := ExecuteCalldata(contractAddress, sdk.selectorFromName(entryPoint), inputs);
      && ReadExecuteCalldata(cd).Some?
      && ReadExecuteCalldata(cd).value.target == contractAddress
      && ReadExecuteCalldata(cd).value.args == inputs
      && Authorizes(sdk, account, ReadExecuteCalldata(cd).value, tx.signature)
  {
    LemmaExecuteRoundTrip(contractAddress, sdk.selectorFromName(entryPoint), inputs);
    LemmaDecimalRoundTrip(0);
  }

  /** The account contract's check on the integers it actually receives: target,
      selector, argument count n, the n arguments, then the nonce; `signature` must be
      the account key's signature over hash([account, target, selector, hash(args), nonce]). */
  predicate AuthorizesCalldata(sdk: Primitives, account: Account, cd: seq<int>, signature: seq<int>)
  {
    && |cd| >= 4
    && 0 <= cd[2]
    && |cd| == cd[2] + 4
    && var pair := sdk.sign(sdk.hashOnElements([account.contractAddress, cd[0], cd[1],
                                                sdk.hashOnElements(cd[3..3 + cd[2]]), cd[3 + cd[2]]]),
                            account.privateKey);
       signature == [pair.0, pair.1]
  }

  /** `parse_inputs` reads the `execute` arguments as the client read their parts when it
      signed: the target as `hex_to_int` reads it, the selector and the count as the numbers
      written, the inputs one number each as `parse_inputs` reads them alone, and the
      nonce as 0. */
  predicate ReadsAsSigned(sdk: Primitives, contractAddress: string, selector: nat, inputs: seq<string>)
  {
    && HexToInt(contractAddress).Success?
    && sdk.parseInputs(inputs).Some?
    && |sdk.parseInputs(inputs).value| == |inputs|
    && sdk.parseInputs(ExecuteCalldata(contractAddress, selector, inputs))
       == Some([HexToInt(contractAddress).value, selector, |inputs|] + sdk.parseInputs(inputs).value + [0])
  }

  /** When `parse_inputs` reads the `execute` arguments as the client read them for the
      signature, the integers the account contract receives are a call that the attached
      signature authorizes. */
  lemma LemmaSignatureCoversCalldata(sdk: Primitives, account: Account, contractAddress: string, entryPoint: string, inputs: seq<string>)
    requires ReadsAsSigned(sdk, contractAddress, sdk.selectorFromName(entryPoint), inputs)
    ensures InvokeThroughAccount(sdk, account, contractAddress, entryPoint, inputs).Success?
    ensures var tx := InvokeThroughAccount(sdk, account, contractAddress, entryPoint, inputs).value;
      AuthorizesCalldata(sdk, account, tx.calldata, tx.signature)
  {
  }
}
