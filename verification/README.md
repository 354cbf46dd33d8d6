# starknet-compose, modelled in Dafny

starknet-compose is a small command-line client for StarkNet. It works like
docker-compose for contracts. It reads a `manifest.json` of contracts, deploys them
through the StarkNet gateway, and records the deployed addresses in
`artifacts.json`. It keeps account contracts and their keys in `accounts.json`. It
can `call` a contract directly, and it can `invoke` a contract through the caller's
account contract. An invoke signs a message that the account contract checks, and
the account contract's `execute` entry point forwards the call to the target.

This project models the client's own logic as pure Dafny functions over sequences,
maps and integers, and proves what that logic promises:

- `numerals.dfy` (`Numerals`) holds positional numerals, meaning digit sequences
  with the most significant digit first, and the arithmetic facts the codecs need.
- `hexcodec.dfy` (`HexCodec`) models `hex_to_int`, which is Python's `int(s, 16)`
  with CPython's literal grammar, and the field encoding `f'0x{v:064x}'`. It also
  models `secrets.token_hex`.
- `decimal.dfy` (`Decimal`) models `str(n)` for the decimal strings that go into
  the `execute` calldata, and reads them back.
- `records.dfy` (`Records`) holds manifest entries, artifacts, and accounts, both
  decoded and as stored.
- `sdk.dfy` (`Sdk`) holds transactions, the gateway, and the SDK primitives.
- `failures.dfy` (`Failures`) holds the exceptions the client can raise, as values.
- `app.dfy` (`App`) models `app/main.py`:
  - `deploy` and `deploy_from_manifest`;
  - `invoke` and `call`;
  - `invoke_through_account`, together with the account contract's reading of the
    `execute` arguments.
- `accountstore.dfy` (`AccountStore`) models decoding `accounts.json` at start-up
  and encoding it after `account create`.
- `cli.dfy` (`Cli`) models the commands of `app/cli.py`:
  - loading the three files;
  - artifact lookup;
  - `call` and `invoke`;
  - the `deploy` loop with its write of `artifacts.json` after the loop;
  - `account create`.

The SDK's computations are the fields of `Sdk.Primitives`:

- `get_selector_from_name`
- `compute_hash_on_elements`
- `parse_inputs`
- `sign`
- `compile_starknet_files`
- `private_to_stark_key`

The gateway is a function from a transaction to an optional response, where None
means the gateway rejected it. Every property holds for every choice of these
functions. An exception in Python becomes a `Failure(error)` value. Where a command
can fail in several ways, its contract states which error it raises, and in what order
the checks happen. An input that `parse_inputs` rejects is `InvalidInputs`, whichever
list it came from.

## Model

| member | source | states |
|---|---|---|
| HexCodec.LemmaPlainDigits | app/utils.py:5-6 | a non-empty string of hexadecimal digits reads as its base-16 value, most significant digit first |
| HexCodec.LemmaPrefixIgnored | app/utils.py:5-6 | a leading `0x` or `0X` is accepted and leaves the value unchanged |
| HexCodec.LemmaSign | app/utils.py:5-6 | a leading `-` negates the value; a leading `+` keeps it |
| HexCodec.LemmaLeadingZeroDigits | app/utils.py:5-6 | any number of leading `0` digits leaves the result unchanged, so padded and unpadded spellings agree |
| HexCodec.LemmaAcceptsExactly | app/utils.py:5-6 | for strings without white space, signs or underscores: reading succeeds if and only if the string is a non-empty run of hex digits, optionally behind `0x`/`0X` |
| HexCodec.LemmaForeignCharRejected | app/utils.py:5-6 | a string containing any character that cannot occur in a base-16 literal is rejected with an error, never given a value |
| HexCodec.LemmaCaseInsensitive | app/utils.py:5-6 | folding ASCII letters to lower case never changes the result, whether a value or an error |
| HexCodec.EncodeField | app/cli.py:193-197 | an encoded field starts with `0x`; for a non-negative value the rest is lower-case hex digits; for a negative value the sign comes right after `0x` |
| HexCodec.LemmaEncodeWidth | app/cli.py:193-197 | a non-negative field has at least 64 digits, and exactly 64 if and only if the value is below 2^256 |
| HexCodec.LemmaEncodeDecode | app/cli.py:189-200 | reading back an encoded field gives the value if it is non-negative; otherwise reading fails |
| HexCodec.LemmaCanonicalField | app/cli.py:59-63 | a field spelled as the client writes it (`0x` plus 64 lower-case digits) decodes to a non-negative value that re-encodes to the same string |
| HexCodec.TokenHex | app/cli.py:170 | the random hex text has two lower-case digits per byte |
| HexCodec.LemmaTokenHexValue | app/cli.py:170 | the random hex text always decodes, to the big-endian value of the bytes, which is below 2^(8·n) |
| Decimal.ToDecimal | app/main.py:69-70 | `str` of a natural number is a non-empty run of decimal digits with no leading zero, except for the number zero itself |
| Decimal.LemmaDecimalRoundTrip | app/main.py:69-70 | reading back the decimal text gives the same number |
| Decimal.LemmaDecimalUnique | app/main.py:69-70 | every decimal text without a leading zero is exactly what `str` writes for its value, so `str` writes the one shortest spelling |
| AccountStore.DecodeStore | app/cli.py:56-66 | loading succeeds if and only if every stored account decodes; a bad field fails the whole load; the names are kept and each account is decoded field by field |
| AccountStore.EncodeStore | app/cli.py:189-200 | writing keeps exactly the set of account names |
| AccountStore.LemmaAccountRoundTrip | app/cli.py:189-200 | writing an account and reading it back gives it back if all three numbers are non-negative; otherwise reading fails |
| AccountStore.LemmaStoreRoundTrip | app/cli.py:189-200 | saving and reloading the store succeeds if and only if no number is negative, and then it gives back every name and every public key, private key and address |
| AccountStore.LemmaCanonicalAccount | app/cli.py:56-66 | an account record in the written format decodes to non-negative numbers and re-encodes to the same record |
| AccountStore.LemmaCanonicalStore | app/cli.py:56-66 | an `accounts.json` in the written format loads, and saving it again gives back the same file |
| App.DeployTransaction | app/main.py:22-28 | the Deploy transaction exists if and only if compilation and input parsing both succeed; compilation errors come first; the salt is always 0; the transaction carries the compiled definition and the parsed constructor inputs |
| App.Deploy | app/main.py:18-29 | it succeeds if and only if the transaction is built and the gateway accepts it; it returns the compiled ABI and the gateway's answer to exactly that transaction |
| App.DeployEntry | app/main.py:36-46 | one manifest entry's record carries the entry's name, the response's address, and the compiled ABI |
| App.DeployFromManifest | app/main.py:32-46 | exactly one record per manifest entry, in manifest order, up to the first entry that fails; it runs to the end if and only if no entry fails; a failure is that entry's error |
| App.Invoke | app/main.py:49-60 | an invoke sends the selector of the function name and passes the signature pair as a list of two, in order |
| App.Call | app/main.py:96-108 | a call sends the selector of the function name with an empty signature |
| App.ExecuteCalldata | app/main.py:67-73 | the `execute` calldata has length `len(inputs) + 4`: target, selector, input count, the inputs unchanged and in order, then `0` |
| App.MessageTuple | app/main.py:77-83 | the signed tuple has exactly five elements, in the order account address, target address, selector, hash of the inputs, 0 |
| App.InvokeThroughAccount | app/main.py:63-93 | it builds the transaction if and only if the target address decodes and both input lists parse; a bad target address fails first, then a bad input; the transaction goes to the account's own contract and its `execute` entry point, not directly to the target; the signature is the account key's signature over hash([account, target, selector, hash(inputs), 0]) |
| App.LemmaExecuteRoundTrip | app/main.py:67-73 | the account contract reads the calldata back as exactly the target, selector and inputs the client wrote, with nonce 0 |
| App.LemmaExecuteCalldataInjective | app/main.py:67-73 | two calls produce the same calldata if and only if they have the same target, selector and inputs |
| App.LemmaMessageTupleInjective | app/main.py:76-83 | two signed tuples are equal if and only if all four inputs are equal, so swapping account and target changes the message |
| App.LemmaSignatureCoversExecuteCall | app/main.py:75-90 | the `execute` arguments, as the strings the client writes, read back as the target and inputs it was given, and the attached signature covers that target as `hex_to_int` reads it and those inputs as `parse_inputs` reads them |
| App.LemmaSignatureCoversCalldata | app/main.py:75-93 | when `parse_inputs` reads the `execute` arguments as the client read their parts for the signature (the target as `hex_to_int` does, one number per input), the transaction is built and the integers the account contract receives form a call that the attached signature authorizes: target, selector, count, those arguments, nonce 0 |
| Cli.LoadContext | app/cli.py:29-67 | a missing `accounts.json` gives an empty account map; a missing manifest or artifacts file stays absent; otherwise loading fails if and only if some account fails to decode, and the accounts are exactly the decoded store: the same names, with every field decoded |
| Cli.FirstMatch | app/cli.py:91-94 | the position found is the first artifact with the requested name, or the end of the list when none has it |
| Cli.FindArtifact | app/cli.py:114-117 | lookup succeeds if and only if some artifact has the name, and returns the first such artifact; no match fails with the contract's name; no artifacts file is its own error |
| Cli.LemmaFirstMatchWins | app/cli.py:114-117 | artifacts after the first match never change the lookup result |
| Cli.CallCommand | app/cli.py:83-102 | a failed lookup is reported first, then a bad address, then a bad input; the call succeeds if and only if the artifact exists, its address decodes and the inputs parse; it goes unsigned to the decoded address |
| Cli.InvokeCommand | app/cli.py:105-129 | a failed lookup is reported first, then an unknown account; when both are found, the result is exactly the account's invoke of the artifact's address as written, sent to the account's contract |
| Cli.DeployCommand | app/cli.py:70-80 | `artifacts.json` is written if and only if no error occurred; on success it lists one artifact per manifest entry, in order, equal to the records yielded; after an error, the responses so far match the deployed prefix and the error is the next entry's |
| Cli.Register | app/cli.py:179-200 | the entry for the name is set, overwriting any old one; every other account is unchanged; the file written is the encoding of the whole new map |
| Cli.CreateAccount | app/cli.py:166-200 | it succeeds if and only if the account contract's deployment succeeds and the returned address decodes; a failed deployment gives its own error, and a bad address gives `InvalidLiteral`; on success the accounts gain exactly the new name; others are unchanged; the private key is the random hex's value; the public key is derived from it; the address is the decoded address of the account contract deployed with the public key; the file is the encoding of the new map |
| Cli.LemmaGeneratedKeyFits | app/cli.py:170 | a private key drawn from 31 random bytes always decodes, lies in [0, 2^248), and so is written with exactly 64 digits |
| Cli.LemmaCreatedStoreReloads | app/cli.py:189-200 | the `accounts.json` that `account create` writes loads back as the same account map, as long as no number in it is negative |

## Left out

- Network I/O is not modelled. This covers the gateway and feeder-gateway clients, `add_transaction`, `call_contract`, and the retry configuration. The gateway is a deterministic function from a transaction to an optional response, and only a Deploy answer's `address` is used. What `call` returns, and how it is printed with `felt_formatter`, is not modelled.
- The `tx_status` command (app/cli.py:132-137, app/main.py:111-115) only forwards a hash to the feeder gateway and prints the answer, so there is nothing local to model.
- `as_sync` (app/utils.py:9-14) is asyncio plumbing. Each wrapped coroutine is modelled as a plain function.
- `generate_key_pair` (app/cli.py:140-158) writes into `obj['keys']`, but the context never creates that key (app/cli.py:45-67). The command therefore always raises `KeyError`, and no behaviour is left to model beyond what `account create` already shows.
- `account list` (app/cli.py:206-210) and every `print` are output formatting only.
- Compilation, Pedersen hashing, selector derivation, `parse_inputs`, ECDSA signing and `private_to_stark_key` are SDK internals. They are opaque functions: the model does not say what `parse_inputs` accepts or what a selector is, only how the client combines their results.
- `secrets.token_hex(31)` randomness is a parameter: the 31 bytes are an input of `Cli.CreateAccount`.
- Reading and writing JSON files is not modelled. Each file is a value; a missing file is None. The model does not cover malformed JSON, or JSON of the wrong shape, such as a missing `name` key. In Python these raise `KeyError` or `TypeError`. A missing manifest or artifacts file, iterated by a command, gets its own error value (`MissingManifest`, `MissingArtifacts`), standing for the `TypeError` Python raises when it iterates `None`.
- The account contract's path, `RESOURCES_DIR / 'Account.cairo'`, is the constant `Cli.AccountContractSource`.
- The account map is a Dafny `map`, so the insertion order of Python's dict is not kept. Only the order of entries in the written file and in `account list` depends on it, not their contents.
- HexCodec.HexToInt: Python's `int(s, 16)` also accepts non-ASCII decimal digits, such as Arabic-Indic digits, by folding them to ASCII. The model rejects them. It models ASCII hex digits, Unicode white space, the sign, the `0x` prefix and underscores exactly.
- HexCodec.EncodeField: a negative value is written as `0x-` followed by its magnitude padded to 63 digits, and that string cannot be read back. The round-trip lemmas therefore state that round trips hold only for non-negative numbers, and state the failure otherwise. Generated keys and derived public keys are never negative. The address is whatever `hex_to_int` makes of the gateway's answer, though. An answer such as `-0x1` would be stored as `0x-…`, and the next start-up could not load `accounts.json`. `Cli.LemmaCreatedStoreReloads` therefore promises a reload only when every number is non-negative.
- App.InvokeThroughAccount: hashing, signing and key derivation are modelled as never raising, so "succeeds" means "builds the transaction". An element outside the field, which the SDK rejects, is not a failure in the model. The invoke is not submitted either, so a rejection by `add_transaction` (app/main.py:60) is not among its failures; the gateway's answer to an invoke or a call is not modelled.
- App.LemmaSignatureCoversExecuteCall: the signed target is the calldata's target only if `parse_inputs` reads the address string as `hex_to_int` does. That holds for a `0x…` address, the form the gateway returns, but `parse_inputs` is part of the SDK, so the model assumes it and does not prove it. `App.LemmaSignatureCoversCalldata` states the integer-level coverage with that assumption as its hypothesis, `App.ReadsAsSigned`.
- App.InvokeThroughAccount: the signature is whatever `sign` returns for the message hash. Whether the account contract's own hash really uses the same five elements is not visible from the client. `App.ReadExecuteCalldata` and `App.Authorizes` state the layout the client assumes for the strings, and `App.AuthorizesCalldata` states it for the integers the contract receives.
