/** The StarkNet SDK as seen by the client.

    The SDK's computations (selector derivation, Pedersen hashing, input parsing,
    ECDSA signing, Cairo compilation, key derivation) are not part of this model:
    they are the fields of `Primitives`, and every property of the client is
    stated for all of their possible behaviours.
 */
module Sdk {
  import opened Failures
  import opened Records

  datatype ContractDefinition = ContractDefinition(program: string, abi: Abi)

  /** The two transaction kinds the client submits. */
  datatype Transaction =
    | DeployTx(contractAddressSalt: int, contractDefinition: ContractDefinition, constructorCalldata: seq<int>)
    | InvokeTx(contractAddress: int, entryPointSelector: nat, calldata: seq<int>, signature: seq<int>)

  /** What the gateway answers to an accepted Deploy. */
  datatype Response = Response(address: string, transactionHash: string)

  /** The gateway's answer to a submitted transaction; None when it rejects it. */
  type Gateway = Transaction -> Option<Response>

  datatype Primitives = Primitives(
    selectorFromName: string -> nat,              // get_selector_from_name
    hashOnElements: seq<int> -> int,              // compute_hash_on_elements
    parseInputs: seq<string> -> Option<seq<int>>, // parse_inputs; None when an input is malformed
    sign: (int, int) -> (int, int),               // sign(msg_hash, priv_key)
    compile: string -> Option<ContractDefinition>,// compile_starknet_files on one source
    privateToStarkKey: int -> nat                 // private_to_stark_key
  )
}
