/** The commands of app/cli.py, as functions from the loaded files and the command's
    options to the transaction sent, the file written, or the error raised. */
module Cli {
  import opened Failures
  import opened Numerals
  import opened Records
  import opened Sdk
  import opened HexCodec
  import opened Decimal
  import opened App
  import opened AccountStore

  /** What the `cli` group loads before any command runs. */
  datatype Context = Context(
    manifest: Option<seq<ManifestEntry>>,
    artifacts: Option<seq<Artifact>>,
    accounts: map<string, Account>)

  /** The `cli` group. Each file is None when it does not exist: a missing manifest or
      artifacts file stays None, a missing accounts.json is an empty store, and every
      stored account is decoded. */
  function LoadContext(
    manifestFile: Option<seq<ManifestEntry>>,
    artifactsFile: Option<seq<Artifact>>,
    accountsFile: Option<map<string, StoredAccount>>): (r: Result<Context>)
    ensures accountsFile.None? ==> r == Success(Context(manifestFile, artifactsFile, map[]))
    ensures accountsFile.Some? ==> (r.Success? <==> DecodeStore(accountsFile.value).Success?)
    ensures r.Failure? ==> r.error == InvalidLiteral
    ensures r.Success? ==> r.value.manifest == manifestFile && r.value.artifacts == artifactsFile
    ensures r.Success? && accountsFile.Some? ==> r.value.accounts.Keys == accountsFile.value.Keys
    ensures r.Success? && accountsFile.Some? ==> r.value.accounts == DecodeStore(accountsFile.value).value
  {
    var accounts :- match accountsFile
      case None => Success(map[])
      case Some(stored) => DecodeStore(stored);
    Success(Context(manifestFile, artifactsFile, accounts))
  }

  // ---------------------------------------------------------------------------
  // Artifact lookup, as in `call` and `invoke`

  /** The position of the first artifact with the given name; |artifacts| when none has it. */
  function FirstMatch(artifacts: seq<Artifact>, name: string): (k: nat)
    ensures k <= |artifacts|
    ensures forall j :: 0 <= j < k ==> artifacts[j].name != name
    ensures k < |artifacts| ==> artifacts[k].name == name
    decreases |artifacts|
  {
    if |artifacts| == 0 then 0
    else if artifacts[0].name == name then 0
    else 1 + FirstMatch(artifacts[1..], name)
  }

  /** `next(c for c in obj['artifacts'] if c['name'] == contract)`. */
  function FindArtifact(artifacts: Option<seq<Artifact>>, name: string): (r: Result<Artifact>)
    ensures artifacts.None? ==> r == Failure(MissingArtifacts)
    ensures artifacts.Some? ==>
      (r.Success? <==> exists i :: 0 <= i < |artifacts.value| && artifacts.value[i].name == name)
    ensures artifacts.Some? && r.Failure? ==> r.error == UnknownContract(name)
    ensures r.Success? ==>
      && artifacts.Some?
      && FirstMatch(artifacts.value, name) < |artifacts.value|
      && r.value == artifacts.value[FirstMatch(artifacts.value, name)]
  {
    match artifacts
    case None => Failure(MissingArtifacts)
    case Some(list) =>
      var k := FirstMatch(list, name);
      if k < |list| then Success(list[k]) else Failure(UnknownContract(name))
  }

  /** Artifacts after the first match never change the answer. */
  lemma {:induction false} LemmaFirstMatchWins(front: seq<Artifact>, back: seq<Artifact>, name: string)
    requires exists i :: 0 <= i < |front| && front[i].name == name
    ensures FindArtifact(Some(front + back), name) == FindArtifact(Some(front), name)
    decreases |front|
  {
    if front[0].name != name {
      assert (front + back)[1..] == front[1..] + back;
      var i :| 0 <= i < |front| && front[i].name == name;
      assert front[1..][i - 1].name == name;
      LemmaFirstMatchWins(front[1..], back, name);
    }
  }

  // ---------------------------------------------------------------------------
  // call and invoke

  /** The `call` command: look the contract up, decode its address, parse the inputs,
      and send an unsigned call. */
  function CallCommand(ctx: Context, sdk: Primitives, contract: string, entryPoint: string, inputs: seq<string>): (r: Result<Transaction>)
    ensures FindArtifact(ctx.artifacts, contract).Failure? ==> r == Failure(FindArtifact(ctx.artifacts, contract).error)
    ensures r.Success? <==>
      && FindArtifact(ctx.artifacts, contract).Success?
      && HexToInt(FindArtifact(ctx.artifacts, contract).value.contractAddress).Success?
      && sdk.parseInputs(inputs).Some?
    ensures FindArtifact(ctx.artifacts, contract).Success? && r.Failure? ==>
      r.error == if HexToInt(FindArtifact(ctx.artifacts, contract).value.contractAddress).Failure? then InvalidLiteral else InvalidInputs
    ensures r.Success? ==>
      && r.value.InvokeTx?
      && Success(r.value.contractAddress) == HexToInt(FindArtifact(ctx.artifacts, contract).value.contractAddress)
      && r.value.entryPointSelector == sdk.selectorFromName(entryPoint)
      && sdk.parseInputs(inputs) == Some(r.value.calldata)
      && r.value.signature == []
  {
    var artifact :- FindArtifact(ctx.artifacts, contract);
    var address :- HexToInt(artifact.contractAddress);
    var calldata :- ParseInputs(sdk, inputs);
    Success(Call(sdk, address, entryPoint, calldata))
  }

  /** The `invoke` command: look the contract up, then the account, and send the call
      through the account. */
  function InvokeCommand(ctx: Context, sdk: Primitives, contract: string, entryPoint: string, inputs: seq<string>, account: string): (r: Result<Transaction>)
    ensures FindArtifact(ctx.artifacts, contract).Failure? ==> r == Failure(FindArtifact(ctx.artifacts, contract).error)
    ensures FindArtifact(ctx.artifacts, contract).Success? && account !in ctx.accounts ==> r == Failure(UnknownAccount(account))
    ensures FindArtifact(ctx.artifacts, contract).Success? && account in ctx.accounts ==>
      r == InvokeThroughAccount(sdk, ctx.accounts[account], FindArtifact(ctx.artifacts, contract).value.contractAddress, entryPoint, inputs)
    ensures r.Success? ==>
      && account in ctx.accounts
      && FindArtifact(ctx.artifacts, contract).Success?
      && r == InvokeThroughAccount(sdk, ctx.accounts[account], FindArtifact(ctx.artifacts, contract).value.contractAddress, entryPoint, inputs)
      && r.value.contractAddress == ctx.accounts[account].contractAddress
  {
    var artifact :- FindArtifact(ctx.artifacts, contract);
    if account !in ctx.accounts then
      Failure(UnknownAccount(account))
    else
      InvokeThroughAccount(sdk, ctx.accounts[account], artifact.contractAddress, entryPoint, inputs)
  }

  // ---------------------------------------------------------------------------
  // deploy

  /** What the `deploy` command leaves behind: the contracts that were deployed, the
      content written to artifacts.json (None: the file was not written), and the
      error that aborted the command, if any. */
  datatype DeployOutcome = DeployOutcome(deployed: seq<Response>, artifactsFile: Option<seq<Artifact>>, error: Option<Error>)

  /** The `deploy` command: collect the artifacts while the generator yields, and write
      artifacts.json only once the loop has finished. */
  method DeployCommand(sdk: Primitives, gateway: Gateway, manifest: Option<seq<ManifestEntry>>) returns (outcome: DeployOutcome)
    ensures outcome.artifactsFile.Some? <==> outcome.error.None?
    ensures manifest.None? ==> outcome == DeployOutcome([], None, Some(MissingManifest))
    ensures manifest.Some? ==> |outcome.deployed| <= |manifest.value|
    ensures manifest.Some? ==> forall i :: 0 <= i < |outcome.deployed| ==>
      DeployEntry(sdk, gateway, manifest.value[i]).Success? && DeployEntry(sdk, gateway, manifest.value[i]).value.0 == outcome.deployed[i]
    ensures manifest.Some? && outcome.error.Some? ==>
      |outcome.deployed| < |manifest.value| && DeployEntry(sdk, gateway, manifest.value[|outcome.deployed|]) == Failure(outcome.error.value)
    ensures outcome.artifactsFile.Some? ==>
      && manifest.Some?
      && |outcome.artifactsFile.value| == |outcome.deployed| == |manifest.value|
      && forall i :: 0 <= i < |manifest.value| ==>
           && outcome.artifactsFile.value[i].name == manifest.value[i].name
           && outcome.artifactsFile.value[i].contractAddress == outcome.deployed[i].address
           && DeployEntry(sdk, gateway, manifest.value[i]) == Success((outcome.deployed[i], outcome.artifactsFile.value[i]))
  {
    if manifest.None? {
      return DeployOutcome([], None, Some(MissingManifest));
    }
    var run := DeployFromManifest(sdk, gateway, manifest.value);
    var artifacts: seq<Artifact> := [];
    var deployed: seq<Response> := [];
    var i := 0;
    while i < |run.yielded|
      invariant 0 <= i <= |run.yielded|
      invariant |artifacts| == i && |deployed| == i
      invariant forall j :: 0 <= j < i ==> deployed[j] == run.yielded[j].0 && artifacts[j] == run.yielded[j].1
    {
      var (response, artifact) := run.yielded[i];
      artifacts := artifacts + [artifact];
      deployed := deployed + [response];
      i := i + 1;
    }
    if run.failure.Some? {
      return DeployOutcome(deployed, None, run.failure);
    }
    outcome := DeployOutcome(deployed, Some(artifacts), None);
  }

  // ---------------------------------------------------------------------------
  // account create

  /** The account contract's source, `Account.cairo` in the package's resources. */
  const AccountContractSource := "Account.cairo"

  /** How many random bytes `secrets.token_hex` draws for a private key. */
  const KeyBytes: nat := 31

  /** The accounts after `account create`, and the content written to accounts.json. */
  datatype Creation = Creation(accounts: map<string, Account>, accountsFile: map<string, StoredAccount>)

  /** `account create`: draw a private key from `entropy` (the bytes `secrets` returns),
      derive the public key, deploy an account contract seeded with it, and record the
      account under `name`, replacing any account of that name. */
  function CreateAccount(sdk: Primitives, gateway: Gateway, accounts: map<string, Account>, name: string, entropy: seq<bv8>): (r: Result<Creation>)
    requires |entropy| == KeyBytes
    ensures r.Success? <==>
      && AccountDeployment(sdk, gateway, entropy).Success?
      && HexToInt(AccountDeployment(sdk, gateway, entropy).value.1.address).Success?
    ensures AccountDeployment(sdk, gateway, entropy).Failure? ==> r == Failure(AccountDeployment(sdk, gateway, entropy).error)
    ensures AccountDeployment(sdk, gateway, entropy).Success? && r.Failure? ==> r == Failure(InvalidLiteral)
    ensures r.Success? ==> r.value.accounts.Keys == accounts.Keys + {name}
    ensures r.Success? ==> forall other :: other in accounts && other != name ==> r.value.accounts[other] == accounts[other]
    ensures r.Success? ==>
      && Success(r.value.accounts[name].privateKey) == HexToInt(TokenHex(entropy))
      && r.value.accounts[name].publicKey == sdk.privateToStarkKey(r.value.accounts[name].privateKey)
    ensures r.Success? ==>
      var deployment := Deploy(sdk, gateway, AccountContractSource, [ToDecimal(r.value.accounts[name].publicKey)]);
      && deployment.Success?
      && HexToInt(deployment.value.1.address) == Success(r.value.accounts[name].contractAddress)
    ensures r.Success? ==> r.value.accountsFile == EncodeStore(r.value.accounts)
  {
    LemmaTokenHexValue(entropy);  // `hex_to_int` of the token cannot fail
    var privateKey := HexToInt(TokenHex(entropy)).value;
    var publicKey := sdk.privateToStarkKey(privateKey);
    var (_, response) :- Deploy(sdk, gateway, AccountContractSource, [ToDecimal(publicKey)]);
    var address :- HexToInt(response.address);
    Success(Register(accounts, name, Account(publicKey, privateKey, address)))
  }

  /** The deployment of the account contract that `account create` makes: its one
      constructor input is the decimal public key derived from the key `entropy` encodes. */
  function AccountDeployment(sdk: Primitives, gateway: Gateway, entropy: seq<bv8>): Result<(Abi, Response)>
  {
    Deploy(sdk, gateway, AccountContractSource, [ToDecimal(sdk.privateToStarkKey(BytesValue(entropy)))])
  }

  /** Record `account` under `name` and write the whole store back. */
  function Register(accounts: map<string, Account>, name: string, account: Account): (r: Creation)
    ensures r.accounts.Keys == accounts.Keys + {name}
    ensures r.accounts[name] == account
    ensures forall other :: other in accounts && other != name ==> r.accounts[other] == accounts[other]
    ensures r.accountsFile == EncodeStore(r.accounts)
  {
    var updated := accounts[name := account];
    Creation(updated, EncodeStore(updated))
  }

  /** The private key drawn from 31 bytes always decodes, is below 2^248, and so
      is written with exactly 64 digits. */
  lemma LemmaGeneratedKeyFits(entropy: seq<bv8>)
    requires |entropy| == KeyBytes
    ensures HexToInt(TokenHex(entropy)).Success?
    ensures 0 <= HexToInt(TokenHex(entropy)).value < Pow(2, 248)
    ensures |EncodeField(HexToInt(TokenHex(entropy)).value)| == FieldWidth + 2
  {
    LemmaTokenHexValue(entropy);
    LemmaPowMonotone(2, 248, 256);
    LemmaEncodeWidth(BytesValue(entropy));
  }

  /** The accounts.json written by `account create` loads back as the new account
      map, as long as no number in it is negative. */
  lemma LemmaCreatedStoreReloads(sdk: Primitives, gateway: Gateway, accounts: map<string, Account>, name: string, entropy: seq<bv8>)
    requires |entropy| == KeyBytes
    ensures var r := CreateAccount(sdk, gateway, accounts, name, entropy);
      r.Success? && AllNonNegative(r.value.accounts) ==> DecodeStore(r.value.accountsFile) == Success(r.value.accounts)
  {
    var r := CreateAccount(sdk, gateway, accounts, name, entropy);
    if r.Success? {
      LemmaStoreRoundTrip(r.value.accounts);
    }
  }
}
