/** The network a run targets, and how it is displayed. */
module Chains {

  datatype Chain = Mainnet | Testnet

  /** The text `Display for Chain` writes: the variant's own name. */
  function Display(chain: Chain): (s: string)
    ensures s == "Mainnet" <==> chain == Mainnet
    ensures s == "Testnet" <==> chain == Testnet
  {
    match chain
    case Mainnet => "Mainnet"
    case Testnet => "Testnet"
  }

  /** Different chains are displayed differently, so the name identifies the chain. */
  lemma DisplayInjective(a: Chain, b: Chain)
    ensures Display(a) == Display(b) <==> a == b
  {
  }
}
