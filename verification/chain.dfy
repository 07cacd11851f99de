/** What the core reads from the outside world: the network's contract
    addresses (utils/config.ts) and the answers of the Base RPC node, given as
    an oracle in which every call either answers or fails. */
module Chain {
  import opened Wrappers

  /** The contract addresses of one network that the core uses. */
  datatype Addresses = Addresses(usdc: string, weth: string, aero: string, seamlessPool: string)

  /** Base mainnet. */
  const Mainnet: Addresses := Addresses(
    "0x833589fCD6eDb6E08f4c7C32D4f71b54bdA02913",
    "0x4200000000000000000000000000000000000006",
    "0x940181a94A35A4569E4529A3CDfB74e38FD98631",
    "0x8F44Fd754285aa6A2b8B9B97739B79746e0475a7")

  /** Base Sepolia; it reuses the mainnet WETH, AERO and pool addresses. */
  const Testnet: Addresses := Addresses(
    "0x036CbD53842c5426634e7929541eC2318f3dCF7e",
    "0x4200000000000000000000000000000000000006",
    "0x940181a94A35A4569E4529A3CDfB74e38FD98631",
    "0x8F44Fd754285aa6A2b8B9B97739B79746e0475a7")

  /** `CURRENT_ADDRESSES`: mainnet in a production build, the testnet otherwise. */
  function CurrentAddresses(production: bool): Addresses {
    if production then Mainnet else Testnet
  }

  /** ASCII lower case; addresses are hexadecimal text. */
  function LowerChar(c: char): char {
    if 'A' <= c <= 'Z' then (c as int + 32) as char else c
  }

  predicate IsUpper(c: char) {
    'A' <= c <= 'Z'
  }

  /** `toLowerCase()` on address text. */
  function Lower(s: string): (r: string)
    ensures |r| == |s|
    ensures forall i :: 0 <= i < |r| ==> !IsUpper(r[i])
    ensures forall i :: 0 <= i < |r| && !IsUpper(s[i]) ==> r[i] == s[i]
    ensures forall i :: 0 <= i < |r| && IsUpper(s[i]) ==> r[i] as int == s[i] as int + ('a' as int - 'A' as int)
  {
    seq(|s|, i requires 0 <= i < |s| => LowerChar(s[i]))
  }

  /** Lower-casing twice changes nothing more. */
  lemma LowerIdempotent(s: string)
    ensures Lower(Lower(s)) == Lower(s)
  {
    var l := Lower(s);
    assert forall i :: 0 <= i < |l| ==> Lower(l)[i] == l[i];
  }

  /** Two addresses name the same account when they agree ignoring case. */
  predicate SameAddress(a: string, b: string) {
    Lower(a) == Lower(b)
  }

  /** The twelve words `getReserveData(asset)` returns, in order. */
  datatype ReserveData = ReserveData(
    configuration: nat,
    liquidityIndex: nat,
    currentLiquidityRate: nat,
    variableBorrowIndex: nat,
    currentVariableBorrowRate: nat,
    currentStableBorrowRate: nat,
    lastUpdateTimestamp: nat,
    id: nat,
    aTokenAddress: string,
    stableDebtTokenAddress: string,
    variableDebtTokenAddress: string,
    interestRateStrategyAddress: string)

  /** The six words `getUserAccountData(user)` returns, in order. */
  datatype AccountSnapshot = AccountSnapshot(
    totalCollateralBase: nat,
    totalDebtBase: nat,
    availableBorrowsBase: nat,
    currentLiquidationThreshold: nat,
    ltv: nat,
    healthFactor: nat)

  /** The answers of the RPC node at one moment. `None` is a call that failed:
      a network error, a revert, or an answer that could not be decoded. */
  datatype Node = Node(
    nativeBalance: string -> Option<nat>,             // provider.getBalance(user)
    tokenBalance: (string, string) -> Option<nat>,    // ERC-20 balanceOf(user), by token then user
    tokenSymbol: string -> Option<string>,            // ERC-20 symbol()
    tokenDecimals: string -> Option<nat>,             // ERC-20 decimals()
    reservesList: Option<seq<string>>,                // pool getReservesList()
    reserveData: string -> Option<ReserveData>,       // pool getReserveData(asset)
    accountData: string -> Option<AccountSnapshot>)   // pool getUserAccountData(user)
}
