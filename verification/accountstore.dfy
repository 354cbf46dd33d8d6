/** accounts.json: the account records app/cli.py reads at start-up and writes back
    after `account create`. Each number is stored as `0x` followed by 64 lower-case
    hexadecimal digits and read back with `hex_to_int`.
 */
module AccountStore {
  import opened Failures
  import opened Records
  import opened HexCodec

  function DecodeAccount(stored: StoredAccount): Result<Account>
  {
    var publicKey :- HexToInt(stored.publicKey);
    var privateKey :- HexToInt(stored.privateKey);
    var address :- HexToInt(stored.contractAddress);
    Success(Account(publicKey, privateKey, address))
  }

  function EncodeAccount(account: Account): StoredAccount
  {
    StoredAccount(EncodeField(account.publicKey), EncodeField(account.privateKey), EncodeField(account.contractAddress))
  }

  /** The start-up decoding: every stored account, under the same name; one bad field
      aborts the whole load. */
  function DecodeStore(stored: map<string, StoredAccount>): (r: Result<map<string, Account>>)
    ensures r.Success? <==> forall name :: name in stored ==> DecodeAccount(stored[name]).Success?
    ensures r.Failure? ==> r.error == InvalidLiteral
    ensures r.Success? ==> r.value.Keys == stored.Keys
    ensures r.Success? ==> forall name :: name in stored ==> Success(r.value[name]) == DecodeAccount(stored[name])
  {
    DecodeEach(stored, DecodeAccount)
  }

  /** Decode every entry of a map with `decode`, keeping the keys; if any entry fails,
      fail with `InvalidLiteral`, the ValueError a bad field raises. */
  function DecodeEach<V, W>(stored: map<string, V>, decode: V -> Result<W>): (r: Result<map<string, W>>)
    ensures r.Success? <==> forall name :: name in stored ==> decode(stored[name]).Success?
    ensures r.Failure? ==> r.error == InvalidLiteral
    ensures r.Success? ==> r.value.Keys == stored.Keys
    ensures r.Success? ==> forall name :: name in stored ==> Success(r.value[name]) == decode(stored[name])
  {
    if forall name :: name in stored ==> decode(stored[name]).Success? then
      Success(map name | name in stored :: decode(stored[name]).value)
    else
      Failure(InvalidLiteral)
  }

  /** The write-back after `account create`: every account, under the same name. */
  function EncodeStore(accounts: map<string, Account>): (r: map<string, StoredAccount>)
    ensures r.Keys == accounts.Keys
  {
    map name | name in accounts :: EncodeAccount(accounts[name])
  }

  predicate IsNonNegative(account: Account)
  {
    account.publicKey >= 0 && account.privateKey >= 0 && account.contractAddress >= 0
  }

  predicate AllNonNegative(accounts: map<string, Account>)
  {
    forall name :: name in accounts ==> IsNonNegative(accounts[name])
  }

  /** Writing an account and reading it back gives it back exactly when none of its
      numbers is negative. */
  lemma LemmaAccountRoundTrip(account: Account)
    ensures DecodeAccount(EncodeAccount(account)) == if IsNonNegative(account) then Success(account) else Failure(InvalidLiteral)
  {
    LemmaEncodeDecode(account.publicKey);
    LemmaEncodeDecode(account.privateKey);
    LemmaEncodeDecode(account.contractAddress);
  }

  /** Saving a store and loading it again keeps every name and every public key,
      private key and address, provided none is negative; otherwise loading fails. */
  lemma LemmaStoreRoundTrip(accounts: map<string, Account>)
    ensures DecodeStore(EncodeStore(accounts)).Success? <==> AllNonNegative(accounts)
    ensures AllNonNegative(accounts) ==> DecodeStore(EncodeStore(accounts)) == Success(accounts)
  {
    if AllNonNegative(accounts) {
      LemmaStoreReloads(accounts);
    } else {
      LemmaNegativeStoreFails(accounts);
    }
  }

  lemma LemmaStoreReloads(accounts: map<string, Account>)
    requires AllNonNegative(accounts)
    ensures DecodeStore(EncodeStore(accounts)) == Success(accounts)
  {
    LemmaEachAccountRoundTrips(accounts);
    LemmaDecodesTo(EncodeStore(accounts), accounts);
  }

  lemma LemmaDecodesTo(stored: map<string, StoredAccount>, accounts: map<string, Account>)
    requires stored.Keys == accounts.Keys
    requires forall name :: name in stored ==> DecodeAccount(stored[name]) == Success(accounts[name])
    ensures DecodeStore(stored) == Success(accounts)
  {
    var decoded := DecodeStore(stored).value;
    assert forall name :: name in accounts ==> decoded[name] == accounts[name];
    assert decoded == accounts;
  }

  lemma LemmaNegativeStoreFails(accounts: map<string, Account>)
    requires !AllNonNegative(accounts)
    ensures DecodeStore(EncodeStore(accounts)).Failure?
  {
    var name :| name in accounts && !IsNonNegative(accounts[name]);
    LemmaEachAccountRoundTrips(accounts);
    assert DecodeAccount(EncodeStore(accounts)[name]).Failure?;
  }

  lemma LemmaEachAccountRoundTrips(accounts: map<string, Account>)
    ensures forall name :: name in accounts ==>
      DecodeAccount(EncodeStore(accounts)[name]) == if IsNonNegative(accounts[name]) then Success(accounts[name]) else Failure(InvalidLiteral)
  {
    forall name | name in accounts
      ensures DecodeAccount(EncodeStore(accounts)[name]) == if IsNonNegative(accounts[name]) then Success(accounts[name]) else Failure(InvalidLiteral)
    {
      assert EncodeStore(accounts)[name] == EncodeAccount(accounts[name]);
      LemmaAccountRoundTrip(accounts[name]);
    }
  }

  /** An account whose three fields are exactly as the client writes them. */
  predicate IsCanonicalAccount(stored: StoredAccount)
  {
    IsCanonicalField(stored.publicKey) && IsCanonicalField(stored.privateKey) && IsCanonicalField(stored.contractAddress)
  }

  lemma LemmaCanonicalAccount(stored: StoredAccount)
    requires IsCanonicalAccount(stored)
    ensures DecodeAccount(stored).Success? && IsNonNegative(DecodeAccount(stored).value)
    ensures EncodeAccount(DecodeAccount(stored).value) == stored
  {
    LemmaCanonicalField(stored.publicKey);
    LemmaCanonicalField(stored.privateKey);
    LemmaCanonicalField(stored.contractAddress);
  }

  /** A file the client wrote loads and saves back unchanged. */
  lemma LemmaCanonicalStore(stored: map<string, StoredAccount>)
    requires forall name :: name in stored ==> IsCanonicalAccount(stored[name])
    ensures DecodeStore(stored).Success?
    ensures AllNonNegative(DecodeStore(stored).value)
    ensures EncodeStore(DecodeStore(stored).value) == stored
  {
    LemmaEachCanonical(stored);
    var decoded := DecodeStore(stored).value;
    LemmaEncodeDecoded(stored, decoded);
  }

  lemma LemmaEncodeDecoded(stored: map<string, StoredAccount>, decoded: map<string, Account>)
    requires decoded.Keys == stored.Keys
    requires forall name :: name in stored ==> EncodeAccount(decoded[name]) == stored[name]
    ensures EncodeStore(decoded) == stored
  {
  }

  lemma LemmaEachCanonical(stored: map<string, StoredAccount>)
    requires forall name :: name in stored ==> IsCanonicalAccount(stored[name])
    ensures forall name :: name in stored ==>
      && DecodeAccount(stored[name]).Success?
      && IsNonNegative(DecodeAccount(stored[name]).value)
      && EncodeAccount(DecodeAccount(stored[name]).value) == stored[name]
  {
    forall name | name in stored
      ensures DecodeAccount(stored[name]).Success? && IsNonNegative(DecodeAccount(stored[name]).value)
      ensures EncodeAccount(DecodeAccount(stored[name]).value) == stored[name]
    {
      LemmaCanonicalAccount(stored[name]);
    }
  }
}
