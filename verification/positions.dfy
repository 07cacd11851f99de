/** The Seamless position reader (utils/seamless.ts): the user's account summary
    from the Seamless lending pool and, for every reserve of the pool, the
    amounts the user supplies and borrows there. The pool and the token
    contracts are read through the `Node` oracle. */
module Positions {
  import opened Wrappers
  import opened Digits
  import opened DecimalText
  import opened Units
  import opened Numbers
  import opened Chain
  import Balances
  import HealthFactor
  import Seqs

  /** Interest rates are fixed-point numbers with 27 decimals ("ray" units). */
  const RayDecimals: nat := 27

  // ---- Which token a reserve holds ----

  /** The symbol and decimals the reader assumes for a reserve. Only USDC and
      WETH are recognised, by address and ignoring case, USDC first; any other
      reserve is "UNKNOWN" with 18 decimals. */
  function AssetMetadata(a: Addresses, asset: string): (m: (string, nat))
    ensures SameAddress(asset, a.usdc) ==> m == ("USDC", 6)
    ensures !SameAddress(asset, a.usdc) && SameAddress(asset, a.weth) ==> m == ("WETH", 18)
    ensures m.0 == Balances.UnknownSymbol <==> !SameAddress(asset, a.usdc) && !SameAddress(asset, a.weth)
    ensures m.0 == Balances.UnknownSymbol ==> m.1 == 18
  {
    if SameAddress(asset, a.usdc) then ("USDC", 6)
    else if SameAddress(asset, a.weth) then ("WETH", 18)
    else (Balances.UnknownSymbol, Balances.DefaultDecimals)
  }

  /** The reserve's address is compared ignoring case: writing it in lower case
      changes nothing. */
  lemma AssetMetadataIgnoresCase(a: Addresses, asset: string)
    ensures AssetMetadata(a, Lower(asset)) == AssetMetadata(a, asset)
  {
    LowerIdempotent(asset);
  }

  /** On a network whose USDC and WETH differ, the reserves of those two tokens
      get the symbol and decimals of the balance table, whatever the case of the
      address the pool lists. */
  lemma KnownReservesMatchTokenTable(a: Addresses, asset: string, i: nat)
    requires !SameAddress(a.usdc, a.weth)
    requires i < 2 && SameAddress(asset, Balances.BaseTokens(a)[i].address)
    ensures AssetMetadata(a, asset) == (Balances.BaseTokens(a)[i].symbol, Balances.BaseTokens(a)[i].decimals)
  {
  }

  /** Two addresses that differ at a position where neither has an upper-case
      letter are different accounts. */
  lemma DifferAt(s: string, t: string, i: nat)
    requires i < |s| && i < |t| && s[i] != t[i] && !IsUpper(s[i]) && !IsUpper(t[i])
    ensures !SameAddress(s, t)
  {
    assert Lower(s)[i] != Lower(t)[i];
  }

  /** On both networks the three configured tokens are different accounts, so
      USDC and WETH reserves are recognised and the AERO reserve is not: it
      is reported as "UNKNOWN", although the balance table knows it. */
  lemma ConfiguredTokensDistinct(production: bool)
    ensures var a := CurrentAddresses(production);
            !SameAddress(a.usdc, a.weth) && AssetMetadata(a, a.aero) == (Balances.UnknownSymbol, 18)
  {
    var a := CurrentAddresses(production);
    DifferAt(a.usdc, a.weth, 2);
    DifferAt(a.aero, a.usdc, 2);
    DifferAt(a.aero, a.weth, 2);
  }

  // ---- getUserSuppliedAmount / getUserBorrowedAmount ----

  /** The raw balance a `balanceOf` read gives, a failed read counting as zero. */
  function RawAmount(node: Node, token: string, user: string): nat {
    node.tokenBalance(token, user).GetOr(0)
  }

  /** `getUserSuppliedAmount(user, asset, aToken, decimals)` and
      `getUserBorrowedAmount(user, asset, debtToken, decimals)`: the user's
      balance of the interest-bearing or the debt token, as
      `formatUnits(balance, decimals)`, or "0" when the read fails. The asset
      argument is unused by both. */
  function ReadAmount(node: Node, token: string, user: string, decimals: nat): (s: string)
    ensures ParseUnits(s, decimals) == Success(RawAmount(node, token, user) as int)
    ensures ParseFloat(s) == Finite(RawAmount(node, token, user) as real / Pow10(decimals) as real)
    ensures node.tokenBalance(token, user).None? ==> s == Balances.ZeroRaw
  {
    match node.tokenBalance(token, user)
    case Some(raw) =>
      ParseFormatUnits(raw, decimals);
      ParseFloatFormatUnits(raw, decimals);
      FormatUnits(raw, decimals)
    case None =>
      ZeroRawReads(decimals);
      Balances.ZeroRaw
  }

  /** The placeholder "0" reads as zero, both as units and as a number. */
  lemma ZeroRawReads(decimals: nat)
    ensures ParseUnits(Balances.ZeroRaw, decimals) == Success(0)
    ensures ParseFloat(Balances.ZeroRaw) == Finite(0 as real / Pow10(decimals) as real)
  {
    assert Balances.ZeroRaw == IntText(0) by {
      assert Show(0) == [0];
      assert Chars([0]) == "0";
    }
    LexRender(FormatUnitsDecimal(0, 0));
    ParseIntText(0);
    ParseFloatFormatUnits(0, 0);
    ZeroDiv(Pow10(decimals) as real);
    ZeroDiv(Pow10(0) as real);
  }

  // ---- getUserSeamlessPositions ----

  /** `SeamlessPosition`: one reserve in which the user supplies or borrows. */
  datatype SeamlessPosition = SeamlessPosition(
    asset: string,
    symbol: string,
    suppliedAmount: string,             // raw integer text
    suppliedAmountFormatted: string,    // whole tokens, six places
    borrowedAmount: string,
    borrowedAmountFormatted: string,
    aTokenAddress: string,
    variableDebtTokenAddress: string,
    currentLiquidityRate: string,       // ray rate as a decimal numeral
    currentVariableBorrowRate: string,
    decimals: nat)

  /** `getReserveData(asset)`: the pool's record for the reserve, `None` when
      the call fails. */
  function GetReserveData(node: Node, asset: string): Option<ReserveData> {
    node.reserveData(asset)
  }

  /** The reference for which reserves are listed: the reserve's data can be
      read, and the user's supplied or borrowed raw balance is nonzero. */
  predicate HasPosition(node: Node, user: string, asset: string) {
    match node.reserveData(asset)
    case None => false
    case Some(rd) =>
      RawAmount(node, rd.aTokenAddress, user) > 0 || RawAmount(node, rd.variableDebtTokenAddress, user) > 0
  }

  function Holds(node: Node, user: string): string -> bool {
    asset => HasPosition(node, user, asset)
  }

  /** What a position states about its reserve, in terms of the raw reads: the
      amounts read back as the raw balances, the formatted amounts are those of
      the balance table's formatting, and the rates read back as the raw ray
      values. */
  predicate Describes(node: Node, a: Addresses, user: string, p: SeamlessPosition) {
    match node.reserveData(p.asset)
    case None => false
    case Some(rd) =>
      var supplied := RawAmount(node, rd.aTokenAddress, user);
      var borrowed := RawAmount(node, rd.variableDebtTokenAddress, user);
      (p.symbol, p.decimals) == AssetMetadata(a, p.asset)
      && p.aTokenAddress == rd.aTokenAddress
      && p.variableDebtTokenAddress == rd.variableDebtTokenAddress
      && ParseInteger(p.suppliedAmount) == Success(supplied as int)
      && ParseInteger(p.borrowedAmount) == Success(borrowed as int)
      && p.suppliedAmountFormatted == Balances.Formatted(supplied, p.decimals)
      && p.borrowedAmountFormatted == Balances.Formatted(borrowed, p.decimals)
      && ParseUnits(p.currentLiquidityRate, RayDecimals) == Success(rd.currentLiquidityRate as int)
      && ParseUnits(p.currentVariableBorrowRate, RayDecimals) == Success(rd.currentVariableBorrowRate as int)
  }

  /** The loop body of `getUserSeamlessPositions` for one reserve: `None` when
      the reserve is skipped. The `Failure` case is the `parseUnits` exception,
      which never happens. */
  function PositionAt(node: Node, a: Addresses, user: string, asset: string)
    : (r: Result<Option<SeamlessPosition>, UnitsError>)
    ensures r.Success?
    ensures r.value.Some? <==> HasPosition(node, user, asset)
    ensures r.value.Some? ==> r.value.value.asset == asset && Describes(node, a, user, r.value.value)
  {
    match GetReserveData(node, asset)
    case None => Success(None)
    case Some(rd) =>
      var (symbol, decimals) := AssetMetadata(a, asset);
      var supplied := ReadAmount(node, rd.aTokenAddress, user, decimals);
      var borrowed := ReadAmount(node, rd.variableDebtTokenAddress, user, decimals);
      AmountPositive(node, rd.aTokenAddress, user, decimals);
      AmountPositive(node, rd.variableDebtTokenAddress, user, decimals);
      if Positive(ParseFloat(supplied)) || Positive(ParseFloat(borrowed)) then
        match (ParseUnits(supplied, decimals), ParseUnits(borrowed, decimals))
        case (Success(s), Success(b)) =>
          ParseIntText(s);
          ParseIntText(b);
          AmountFormatted(node, rd.aTokenAddress, user, decimals);
          AmountFormatted(node, rd.variableDebtTokenAddress, user, decimals);
          ParseFormatUnits(rd.currentLiquidityRate, RayDecimals);
          ParseFormatUnits(rd.currentVariableBorrowRate, RayDecimals);
          Success(Some(SeamlessPosition(
            asset, symbol,
            IntText(s), ToFixed(ParseFloat(supplied), Balances.DisplayPlaces),
            IntText(b), ToFixed(ParseFloat(borrowed), Balances.DisplayPlaces),
            rd.aTokenAddress, rd.variableDebtTokenAddress,
            FormatUnits(rd.currentLiquidityRate, RayDecimals),
            FormatUnits(rd.currentVariableBorrowRate, RayDecimals),
            decimals)))
        case (Failure(e), _) => Failure(e)
        case (_, Failure(e)) => Failure(e)
      else Success(None)
  }

  /** `parseFloat(amount) > 0` holds exactly when the raw balance is nonzero. */
  lemma AmountPositive(node: Node, token: string, user: string, decimals: nat)
    ensures Positive(ParseFloat(ReadAmount(node, token, user, decimals))) <==> RawAmount(node, token, user) > 0
  {
    DivPositive(RawAmount(node, token, user) as real, Pow10(decimals) as real);
  }

  /** `parseFloat(amount).toFixed(6)` is the balance table's formatting of the
      raw balance. */
  lemma AmountFormatted(node: Node, token: string, user: string, decimals: nat)
    ensures ToFixed(ParseFloat(ReadAmount(node, token, user, decimals)), Balances.DisplayPlaces)
            == Balances.Formatted(RawAmount(node, token, user), decimals)
  {
    ParseFloatFormatUnits(RawAmount(node, token, user), decimals);
  }

  /** The assets of a list of positions, in order. */
  function Assets(ps: seq<SeamlessPosition>): seq<string> {
    if ps == [] then [] else [ps[0].asset] + Assets(ps[1..])
  }

  /** The `for` loop over the reserves: positions in reserve order. */
  function Walk(node: Node, a: Addresses, user: string, assets: seq<string>)
    : (r: Result<seq<SeamlessPosition>, UnitsError>)
    ensures r.Success?
    ensures Assets(r.value) == Seqs.Filter(assets, Holds(node, user))
    ensures forall i :: 0 <= i < |r.value| ==> Describes(node, a, user, r.value[i])
  {
    if |assets| == 0 then Success([])
    else
      match (PositionAt(node, a, user, assets[0]), Walk(node, a, user, assets[1..]))
      case (Success(p), Success(rest)) =>
        assert Holds(node, user)(assets[0]) == HasPosition(node, user, assets[0]);
        if p.Some? then
          AssetsCons(p.value, rest);
          DescribesCons(node, a, user, p.value, rest);
          Success([p.value] + rest)
        else Success(rest)
      case (Failure(e), _) => Failure(e)
      case (_, Failure(e)) => Failure(e)
  }

  lemma AssetsCons(p: SeamlessPosition, rest: seq<SeamlessPosition>)
    ensures Assets([p] + rest) == [p.asset] + Assets(rest)
  {
    assert ([p] + rest)[1..] == rest;
  }

  lemma DescribesCons(node: Node, a: Addresses, user: string, p: SeamlessPosition, rest: seq<SeamlessPosition>)
    requires Describes(node, a, user, p)
    requires forall i :: 0 <= i < |rest| ==> Describes(node, a, user, rest[i])
    ensures forall i :: 0 <= i < |[p] + rest| ==> Describes(node, a, user, ([p] + rest)[i])
  {
    var P := Described(node, a, user);
    assert forall i :: 0 <= i < |rest| ==> P(rest[i]);
    Seqs.AllCons(P, p, rest);
  }

  function Described(node: Node, a: Addresses, user: string): SeamlessPosition -> bool {
    p => Describes(node, a, user, p)
  }

  /** `getUserSeamlessPositions(user)`: every reserve of the pool in which the
      user supplies or borrows, in the pool's order. A reserve whose data cannot
      be read is skipped; if the reserve list cannot be read the result is
      empty. */
  function GetUserSeamlessPositions(node: Node, a: Addresses, user: string): (r: seq<SeamlessPosition>)
    ensures node.reservesList.None? ==> r == []
    ensures node.reservesList.Some? ==> Assets(r) == Seqs.Filter(node.reservesList.value, Holds(node, user))
    ensures forall i :: 0 <= i < |r| ==> Describes(node, a, user, r[i])
  {
    match node.reservesList
    case None => []
    case Some(list) =>
      match Walk(node, a, user, list)
      case Success(ps) => ps
      case Failure(_) => []
  }

  /** A listed reserve appears among the positions exactly when the user holds
      a position in it. */
  lemma PositionListedIff(node: Node, a: Addresses, user: string, asset: string)
    requires node.reservesList.Some? && asset in node.reservesList.value
    ensures asset in Assets(GetUserSeamlessPositions(node, a, user)) <==> HasPosition(node, user, asset)
  {
    assert Holds(node, user)(asset) == HasPosition(node, user, asset);
  }

  /** A reserve whose data cannot be read yields no position; the other
      reserves are listed as `PositionListedIff` says. */
  lemma FailedReserveSkipped(node: Node, a: Addresses, user: string, asset: string)
    requires node.reserveData(asset).None?
    ensures asset !in Assets(GetUserSeamlessPositions(node, a, user))
  {
    if node.reservesList.Some? && asset in node.reservesList.value {
      PositionListedIff(node, a, user, asset);
    }
  }

  /** A reserve in which the user supplies a single wei of WETH is listed,
      although its formatted amount reads as zero; the balance table would hide
      such a balance. */
  lemma DustPositionListed(node: Node, a: Addresses, user: string, asset: string, rd: ReserveData)
    requires node.reservesList.Some? && asset in node.reservesList.value
    requires node.reserveData(asset) == Some(rd) && AssetMetadata(a, asset).1 == Balances.EtherDecimals
    requires node.tokenBalance(rd.aTokenAddress, user) == Some(1)
    ensures HasPosition(node, user, asset)
    ensures asset in Assets(GetUserSeamlessPositions(node, a, user))
    ensures !Positive(ParseFloat(Balances.Formatted(1, AssetMetadata(a, asset).1)))
  {
    PositionListedIff(node, a, user, asset);
    Balances.FormattedPositive(1, Balances.EtherDecimals);
    Balances.OneWeiBelowHalfMicro();
  }

  // ---- getUserAccountData ----

  /** `UserAccountData`: the pool's six account words as integer text, plus the
      health factor as a decimal numeral. */
  datatype UserAccountData = UserAccountData(
    totalCollateralBase: string,
    totalDebtBase: string,
    availableBorrowsBase: string,
    currentLiquidationThreshold: string,
    ltv: string,
    healthFactor: string,
    healthFactorFormatted: string)

  /** The account record reads back as the snapshot it was built from. */
  predicate Reports(d: UserAccountData, s: AccountSnapshot) {
    ParseInteger(d.totalCollateralBase) == Success(s.totalCollateralBase as int)
    && ParseInteger(d.totalDebtBase) == Success(s.totalDebtBase as int)
    && ParseInteger(d.availableBorrowsBase) == Success(s.availableBorrowsBase as int)
    && ParseInteger(d.currentLiquidationThreshold) == Success(s.currentLiquidationThreshold as int)
    && ParseInteger(d.ltv) == Success(s.ltv as int)
    && ParseInteger(d.healthFactor) == Success(s.healthFactor as int)
    && ParseUnits(d.healthFactorFormatted, HealthFactor.HealthFactorDecimals) == Success(s.healthFactor as int)
    && ParseFloat(d.healthFactorFormatted)
       == Finite(s.healthFactor as real / Pow10(HealthFactor.HealthFactorDecimals) as real)
  }

  /** `getUserAccountData(user)`: `None` (the source's `null`) exactly when the
      pool call fails. */
  function GetUserAccountData(node: Node, user: string): (r: Option<UserAccountData>)
    ensures r.Some? <==> node.accountData(user).Some?
    ensures r.Some? ==> Reports(r.value, node.accountData(user).value)
  {
    match node.accountData(user)
    case None => None
    case Some(s) =>
      ParseIntText(s.totalCollateralBase);
      ParseIntText(s.totalDebtBase);
      ParseIntText(s.availableBorrowsBase);
      ParseIntText(s.currentLiquidationThreshold);
      ParseIntText(s.ltv);
      ParseIntText(s.healthFactor);
      ParseFormatUnits(s.healthFactor, HealthFactor.HealthFactorDecimals);
      ParseFloatFormatUnits(s.healthFactor, HealthFactor.HealthFactorDecimals);
      Some(UserAccountData(
        IntText(s.totalCollateralBase),
        IntText(s.totalDebtBase),
        IntText(s.availableBorrowsBase),
        IntText(s.currentLiquidationThreshold),
        IntText(s.ltv),
        IntText(s.healthFactor),
        FormatUnits(s.healthFactor, HealthFactor.HealthFactorDecimals)))
  }

  /** An account without debt (health factor the largest 256-bit word) is
      displayed as "∞" in green. */
  lemma NoDebtAccountShown(node: Node, user: string)
    requires node.accountData(user).Some? && node.accountData(user).value.healthFactor == HealthFactor.MaxUint256
    ensures var d := GetUserAccountData(node, user).value;
            HealthFactor.FormatHealthFactor(d.healthFactorFormatted) == HealthFactor.InfinityText
            && HealthFactor.GetHealthFactorColor(d.healthFactorFormatted) == HealthFactor.ColorClass(HealthFactor.Safe)
  {
    HealthFactor.NoDebtIsInfinity();
  }

  /** A zero health factor is also displayed as "∞" in green. */
  lemma ZeroHealthAccountShown(node: Node, user: string)
    requires node.accountData(user).Some? && node.accountData(user).value.healthFactor == 0
    ensures var d := GetUserAccountData(node, user).value;
            HealthFactor.FormatHealthFactor(d.healthFactorFormatted) == HealthFactor.InfinityText
            && HealthFactor.GetHealthFactorColor(d.healthFactorFormatted) == HealthFactor.ColorClass(HealthFactor.Safe)
  {
    HealthFactor.ZeroRawIsInfinity(HealthFactor.HealthFactorDecimals);
  }
}
