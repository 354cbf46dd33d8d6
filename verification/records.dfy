/** The records the client keeps in its JSON files. */
module Records {

  /** The compiled contract interface, kept as the JSON text the compiler produced. */
  datatype Abi = Abi(json: string)

  /** One entry of manifest.json: a contract to deploy and its constructor inputs. */
  datatype ManifestEntry = ManifestEntry(name: string, source: string, inputs: seq<string>)

  /** One entry of artifacts.json: a deployed contract. The address is kept as the
      gateway returned it, a hexadecimal string. */
  datatype Artifact = Artifact(name: string, contractAddress: string, abi: Abi)

  /** An account as the client holds it in memory, with its numbers decoded. */
  datatype Account = Account(publicKey: int, privateKey: int, contractAddress: int)

  /** An account as accounts.json stores it: each number as a hexadecimal string. */
  datatype StoredAccount = StoredAccount(publicKey: string, privateKey: string, contractAddress: string)
}
