/**
 * The map from bridged ERC-20 contract addresses to synthetic system addresses.
 * Each spot token carrying an EVM contract is given the address
 * 0x20, eleven zero bytes, then its token index as eight big-endian bytes.
 * The spot-metadata request is a parameter: the model sees only its outcome.
 */
module EvmMap {
  import opened Bytes
  import opened Outcomes
  import opened Chains

  /** A 20-byte EVM address. */
  type Address = a: seq<u8> | |a| == 20 witness seq(20, _ => 0)

  datatype EvmContract = EvmContract(address: Address)

  datatype SpotToken = SpotToken(index: u64, evmContract: Option<EvmContract>)

  datatype SpotMeta = SpotMeta(tokens: seq<SpotToken>)

  /** The spot-metadata request: given the endpoint URL, the decoded response or a failure reason. */
  type SpotMetaFetch = string -> Result<SpotMeta, string>

  /** First byte of every synthetic system address. */
  const SYSTEM_ADDRESS_PREFIX: u8 := 0x20

  /** The metadata endpoint of each network; both are HTTPS `/info` endpoints. */
  function InfoUrl(chain: Chain): (url: string)
    ensures |url| > |"https://"| + |"/info"|
    ensures url[..8] == "https://" && url[|url| - 5..] == "/info"
  {
    match chain
    case Mainnet => "https://api.hyperliquid.xyz/info"
    case Testnet => "https://api.hyperliquid-testnet.xyz/info"
  }

  /** Mainnet and Testnet metadata are fetched from different endpoints. */
  lemma InfoUrlDistinct()
    ensures InfoUrl(Mainnet) != InfoUrl(Testnet)
  {
  }

  /** The synthetic system address of the token with the given index. */
  function SystemAddress(index: u64): (a: Address)
  {
    [SYSTEM_ADDRESS_PREFIX] + seq(11, _ => 0) + ToBeBytes(index)
  }

  /**
   * The index a system address was derived from, or None when the address
   * does not have the system layout (prefix 0x20, then eleven zero bytes).
   */
  function SystemAddressIndex(a: Address): (index: Option<u64>)
  {
    if a[0] == SYSTEM_ADDRESS_PREFIX && forall k :: 1 <= k < 12 ==> a[k] == 0
    then Some(FromBeBytes(a[12..]))
    else None
  }

  /**
   * Derives the address of one token the way the loop body does it: a zeroed
   * 20-byte buffer, byte 0 set to 0x20, bytes 12..20 overwritten with the
   * big-endian index.
   */
  method DeriveSystemAddress(index: u64) returns (addr: Address)
    ensures addr[0] == SYSTEM_ADDRESS_PREFIX
    ensures forall k :: 1 <= k < 12 ==> addr[k] == 0
    ensures addr[12..] == ToBeBytes(index)
    ensures addr == SystemAddress(index)
  {
    var buf := new u8[20](_ => 0);
    buf[0] := SYSTEM_ADDRESS_PREFIX;
    var be := ToBeBytes(index);
    for k := 0 to 8
      invariant buf[..12] == [SYSTEM_ADDRESS_PREFIX] + seq(11, _ => 0)
      invariant buf[12..12 + k] == be[..k]
    {
      buf[12 + k] := be[k];
    }
    assert buf[..] == buf[..12] + buf[12..20];
    addr := buf[..];
  }

  /** Every system address decodes back to the index it came from. */
  lemma SystemAddressRoundTrip(index: u64)
    ensures SystemAddressIndex(SystemAddress(index)) == Some(index)
  {
    var a := SystemAddress(index);
    assert a[12..] == ToBeBytes(index);
    BeBytesRoundTrip(index, a[12..]);
  }

  /** An address with the system layout is the system address of the index it decodes to. */
  lemma SystemAddressIndexSound(a: Address, index: u64)
    requires SystemAddressIndex(a) == Some(index)
    ensures a == SystemAddress(index)
  {
    BeBytesRoundTrip(index, a[12..]);
    assert a == a[..12] + a[12..];
    assert a[..12] == [SYSTEM_ADDRESS_PREFIX] + seq(11, _ => 0);
  }

  /** Distinct token indices yield distinct system addresses. */
  lemma SystemAddressInjective(i: u64, j: u64)
    ensures SystemAddress(i) == SystemAddress(j) <==> i == j
  {
    SystemAddressRoundTrip(i);
    SystemAddressRoundTrip(j);
  }

  /** Token index 5 gets the address 0x2000000000000000000000000000000000000005. */
  lemma SystemAddressOfFive()
    ensures SystemAddress(5) == [0x20] + seq(18, _ => 0) + [5]
  {
    assert ToBeBytes(5) == [0, 0, 0, 0, 0, 0, 0, 5];
  }

  /**
   * The map the loop builds: tokens are visited in list order, a token without
   * an EVM contract is skipped, and an insert overwrites an earlier one for the
   * same contract.
   */
  function SystemAddressMap(tokens: seq<SpotToken>): (m: map<Address, Address>)
  {
    if tokens == [] then map[]
    else
      var earlier := SystemAddressMap(tokens[..|tokens| - 1]);
      var token := tokens[|tokens| - 1];
      match token.evmContract
      case None => earlier
      case Some(contract) => earlier[contract.address := SystemAddress(token.index)]
  }

  /** The contract addresses that occur in the token list. */
  ghost function Contracts(tokens: seq<SpotToken>): (cs: set<Address>)
  {
    set i | 0 <= i < |tokens| && tokens[i].evmContract.Some? :: tokens[i].evmContract.value.address
  }

  /** The map's keys are exactly the contracts that occur in the token list. */
  lemma {:induction false} SystemAddressMapKeys(tokens: seq<SpotToken>)
    ensures SystemAddressMap(tokens).Keys == Contracts(tokens)
  {
    if tokens != [] {
      var init := tokens[..|tokens| - 1];
      SystemAddressMapKeys(init);
      var last := tokens[|tokens| - 1];
      assert forall i :: 0 <= i < |init| ==> init[i] == tokens[i];
      if last.evmContract.Some? {
        assert Contracts(tokens) == Contracts(init) + {last.evmContract.value.address};
      } else {
        assert Contracts(tokens) == Contracts(init);
      }
    }
  }

  /**
   * Last writer wins: if token i carries contract c and no later token does,
   * the map sends c to token i's system address.
   */
  lemma {:induction false} SystemAddressMapLastWriter(tokens: seq<SpotToken>, i: nat, c: Address)
    requires i < |tokens| && tokens[i].evmContract == Some(EvmContract(c))
    requires forall j :: i < j < |tokens| ==> tokens[j].evmContract != Some(EvmContract(c))
    ensures c in SystemAddressMap(tokens)
    ensures SystemAddressMap(tokens)[c] == SystemAddress(tokens[i].index)
  {
    var init := tokens[..|tokens| - 1];
    if i < |tokens| - 1 {
      SystemAddressMapLastWriter(init, i, c);
    }
  }

  /**
   * The loop of erc20_contract_to_system_address over an already fetched
   * token list: an empty map, then one insert per token that has a contract.
   */
  method ContractToSystemAddress(tokens: seq<SpotToken>) returns (m: map<Address, Address>)
    ensures m == SystemAddressMap(tokens)
    ensures m.Keys == Contracts(tokens)
    ensures forall c :: c in m ==> SystemAddressIndex(m[c]).Some?
  {
    m := map[];
    for i := 0 to |tokens|
      invariant m == SystemAddressMap(tokens[..i])
      invariant forall c :: c in m ==> SystemAddressIndex(m[c]).Some?
    {
      var token := tokens[i];
      assert tokens[..i + 1][..i] == tokens[..i];
      match token.evmContract {
        case Some(evmContract) =>
          var addr := DeriveSystemAddress(token.index);
          SystemAddressRoundTrip(token.index);
          m := m[evmContract.address := addr];
        case None =>
      }
    }
    assert tokens[..|tokens|] == tokens;
    SystemAddressMapKeys(tokens);
  }

  /**
   * erc20_contract_to_system_address: fetch the spot metadata from the
   * chain's endpoint; a failed fetch is the result, otherwise the map built
   * from the returned tokens.
   */
  method Erc20ContractToSystemAddress(chain: Chain, fetch: SpotMetaFetch)
    returns (r: Result<map<Address, Address>, string>)
    ensures fetch(InfoUrl(chain)).Err? ==> r == Err(fetch(InfoUrl(chain)).error)
    ensures fetch(InfoUrl(chain)).Ok? ==> r == Ok(SystemAddressMap(fetch(InfoUrl(chain)).value.tokens))
  {
    var meta := fetch(InfoUrl(chain));
    if meta.Err? {
      return Err(meta.error);
    }
    var m := ContractToSystemAddress(meta.value.tokens);
    r := Ok(m);
  }
}
