/** The Balance Aggregator (utils/fetchBalances.ts): the native ETH balance and
    ERC-20 balances of one user, each read on its own and degraded to a
    placeholder when its read fails. */
module Balances {
  import opened Wrappers
  import opened Digits
  import opened DecimalText
  import opened Units
  import opened Numbers
  import opened Chain
  import opened BigIntText
  import Seqs

  /** `TokenInfo`: a token the application knows in advance. */
  datatype TokenInfo = TokenInfo(address: string, symbol: string, decimals: nat, name: string)

  /** `TokenBalance`: one row of the user's holdings. `balance` is the raw
      integer as decimal text, `balanceFormatted` the amount in whole tokens
      with six places. */
  datatype TokenBalance = TokenBalance(
    token: string, symbol: string, balance: string, balanceFormatted: string, decimals: nat)

  /** `BASE_TOKENS`, in table order. */
  function BaseTokens(a: Addresses): (r: seq<TokenInfo>)
    ensures |r| == 3
    ensures forall i :: 0 <= i < |r| ==> r[i].symbol != "" && 0 < r[i].decimals <= EtherDecimals
  {
    [ TokenInfo(a.usdc, "USDC", 6, "USD Coin"),
      TokenInfo(a.weth, "WETH", 18, "Wrapped Ethereum"),
      TokenInfo(a.aero, "AERO", 18, "Aerodrome Finance") ]
  }

  /** Places of `balanceFormatted`. */
  const DisplayPlaces: nat := 6
  const EtherDecimals: nat := 18
  const DefaultDecimals: nat := 18
  const EthToken: string := "ETH"
  const UnknownSymbol: string := "UNKNOWN"
  /** The raw balance and the formatted balance a failed read reports. */
  const ZeroRaw: string := "0"
  const ZeroFormatted: string := "0.000000"

  /** `parseFloat(formatUnits(raw, decimals)).toFixed(6)`. */
  function Formatted(raw: nat, decimals: nat): string {
    ToFixed(ParseFloat(FormatUnits(raw, decimals)), DisplayPlaces)
  }

  /** JavaScript `s || fallback` on text and on numbers: the empty string and
      zero are falsy. */
  function OrText(s: string, fallback: string): string {
    if s == "" then fallback else s
  }

  function OrNat(n: nat, fallback: nat): nat {
    if n == 0 then fallback else n
  }

  /** `getEthBalance(user)`. */
  function GetEthBalance(node: Node, user: string): (b: TokenBalance)
    ensures b.token == EthToken && b.symbol == EthToken && b.decimals == EtherDecimals
    ensures node.nativeBalance(user).None? ==> b.balance == ZeroRaw && b.balanceFormatted == ZeroFormatted
    ensures node.nativeBalance(user).Some? ==> ParseInteger(b.balance) == Success(node.nativeBalance(user).value)
    ensures node.nativeBalance(user).Some? ==> b.balanceFormatted == Formatted(node.nativeBalance(user).value, EtherDecimals)
  {
    match node.nativeBalance(user)
    case Some(raw) =>
      ParseIntText(raw);
      TokenBalance(EthToken, EthToken, IntText(raw), Formatted(raw, EtherDecimals), EtherDecimals)
    case None =>
      TokenBalance(EthToken, EthToken, ZeroRaw, ZeroFormatted, EtherDecimals)
  }

  /** `getTokenBalance` asks the token for its symbol and decimals only when the
      caller knows no symbol for it. */
  predicate FetchesMetadata(info: Option<TokenInfo>) {
    info.None? || info.value.symbol == ""
  }

  /** The symbol and decimals `getTokenBalance` works with, or `None` when the
      metadata calls it had to make failed. */
  function Metadata(node: Node, token: string, info: Option<TokenInfo>): Option<(string, nat)> {
    if !FetchesMetadata(info) then Some((info.value.symbol, info.value.decimals))
    else match (node.tokenSymbol(token), node.tokenDecimals(token))
      case (Some(s), Some(d)) => Some((s, d))
      case _ => None
  }

  /** Every read `getTokenBalance` makes succeeds, and `formatUnits` accepts
      the decimals it is given. */
  predicate TokenReadSucceeds(node: Node, token: string, user: string, info: Option<TokenInfo>) {
    Metadata(node, token, info).Some? && Metadata(node, token, info).value.1 <= MaxUnitsDecimals
    && node.tokenBalance(token, user).Some?
  }

  /** The record `getTokenBalance` returns from its `catch`. */
  function TokenFallback(token: string, info: Option<TokenInfo>): TokenBalance {
    TokenBalance(
      token,
      if info.Some? then OrText(info.value.symbol, UnknownSymbol) else UnknownSymbol,
      ZeroRaw, ZeroFormatted,
      if info.Some? then OrNat(info.value.decimals, DefaultDecimals) else DefaultDecimals)
  }

  /** `getTokenBalance(token, user, info)`. */
  function GetTokenBalance(node: Node, token: string, user: string, info: Option<TokenInfo>): (b: TokenBalance)
    ensures b.token == token && b.symbol != "" && b.decimals > 0
    ensures !TokenReadSucceeds(node, token, user, info) ==> b.balance == ZeroRaw && b.balanceFormatted == ZeroFormatted
    ensures TokenReadSucceeds(node, token, user, info) ==>
              ParseInteger(b.balance) == Success(node.tokenBalance(token, user).value)
    ensures TokenReadSucceeds(node, token, user, info) ==>
              b.balanceFormatted == Formatted(node.tokenBalance(token, user).value, Metadata(node, token, info).value.1)
  {
    match (Metadata(node, token, info), node.tokenBalance(token, user))
    case (Some((symbol, decimals)), Some(raw)) =>
      if decimals > MaxUnitsDecimals then TokenFallback(token, info)
      else
        ParseIntText(raw);
        TokenBalance(token, OrText(symbol, UnknownSymbol), IntText(raw), Formatted(raw, decimals),
                     OrNat(decimals, DefaultDecimals))
    case _ => TokenFallback(token, info)
  }

  /** The label of a row: a caller-supplied symbol is always kept, with the
      caller's decimals (18 when they are 0); without one, a successful row
      carries the token's own symbol and decimals (`UNKNOWN` and 18 when they
      are empty or 0), and a failed read is labelled `UNKNOWN`. */
  lemma TokenLabel(node: Node, token: string, user: string, info: Option<TokenInfo>)
    ensures var b := GetTokenBalance(node, token, user, info);
      !FetchesMetadata(info) ==>
        b.symbol == info.value.symbol && b.decimals == OrNat(info.value.decimals, DefaultDecimals)
    ensures var b := GetTokenBalance(node, token, user, info);
      FetchesMetadata(info) && TokenReadSucceeds(node, token, user, info) ==>
        b.symbol == OrText(node.tokenSymbol(token).value, UnknownSymbol)
        && b.decimals == OrNat(node.tokenDecimals(token).value, DefaultDecimals)
    ensures var b := GetTokenBalance(node, token, user, info);
      FetchesMetadata(info) && !TokenReadSucceeds(node, token, user, info) ==>
        b.symbol == UnknownSymbol
        && b.decimals == (if info.Some? then OrNat(info.value.decimals, DefaultDecimals) else DefaultDecimals)
  {
  }

  /** The filter of `getAllTokenBalances`: `parseFloat(balanceFormatted) > 0`. */
  predicate KeepBalance(b: TokenBalance) {
    Positive(ParseFloat(b.balanceFormatted))
  }

  /** Every balance `getAllTokenBalances` reads, ETH first, then `BASE_TOKENS`
      in table order. */
  function AllCandidates(node: Node, a: Addresses, user: string): (r: seq<TokenBalance>)
    ensures |r| == 1 + |BaseTokens(a)|
    ensures r[0] == GetEthBalance(node, user)
    ensures forall i :: 0 <= i < |BaseTokens(a)| ==>
              r[i + 1] == GetTokenBalance(node, BaseTokens(a)[i].address, user, Some(BaseTokens(a)[i]))
  {
    var tokens := BaseTokens(a);
    [GetEthBalance(node, user)] +
    seq(|tokens|, i requires 0 <= i < |tokens| =>
      GetTokenBalance(node, tokens[i].address, user, Some(tokens[i])))
  }

  /** `getAllTokenBalances(user)`. Neither reader ever throws, so its `catch`
      (which would give []) is never taken. */
  function GetAllTokenBalances(node: Node, a: Addresses, user: string): (r: seq<TokenBalance>)
    ensures |r| <= 1 + |BaseTokens(a)|
    ensures forall i :: 0 <= i < |r| ==> KeepBalance(r[i])
    ensures Seqs.IsSubsequence(r, AllCandidates(node, a, user))
  {
    Seqs.Filter(AllCandidates(node, a, user), KeepBalance)
  }

  /** `BASE_TOKENS.find(t => t.address.toLowerCase() === address.toLowerCase())`. */
  function FindToken(a: Addresses, address: string): (r: Option<TokenInfo>)
    ensures r.Some? <==> exists i :: 0 <= i < |BaseTokens(a)| && SameAddress(BaseTokens(a)[i].address, address)
    ensures r.Some? ==> exists i :: 0 <= i < |BaseTokens(a)| && r.value == BaseTokens(a)[i]
                          && SameAddress(r.value.address, address)
                          && forall j :: 0 <= j < i ==> !SameAddress(BaseTokens(a)[j].address, address)
  {
    FindIn(BaseTokens(a), address)
  }

  /** The first entry of `tokens` whose address matches, ignoring case. */
  function FindIn(tokens: seq<TokenInfo>, address: string): (r: Option<TokenInfo>)
    ensures r.Some? <==> exists i :: 0 <= i < |tokens| && SameAddress(tokens[i].address, address)
    ensures r.Some? ==> exists i :: 0 <= i < |tokens| && r.value == tokens[i]
                          && SameAddress(r.value.address, address)
                          && forall j :: 0 <= j < i ==> !SameAddress(tokens[j].address, address)
  {
    if |tokens| == 0 then None
    else if SameAddress(tokens[0].address, address) then Some(tokens[0])
    else
      var r := FindIn(tokens[1..], address);
      assert forall i :: 1 <= i < |tokens| ==> tokens[i] == tokens[1..][i - 1];
      r
  }

  /** `getMultipleTokenBalances(tokens, user)`: one record per requested
      address, in request order, with no filtering. */
  function GetMultipleTokenBalances(node: Node, a: Addresses, tokens: seq<string>, user: string): (r: seq<TokenBalance>)
    ensures |r| == |tokens|
    ensures forall i :: 0 <= i < |r| ==> r[i].token == tokens[i]
    ensures forall i :: 0 <= i < |r| ==> r[i] == GetTokenBalance(node, tokens[i], user, FindToken(a, tokens[i]))
  {
    seq(|tokens|, i requires 0 <= i < |tokens| => GetTokenBalance(node, tokens[i], user, FindToken(a, tokens[i])))
  }

  /** The ways `formatBalance` throws, in the order they are checked. */
  datatype FormatError =
    | DecimalsTooLarge  // `formatUnits` accepts at most 80 decimals
    | InvalidBalance    // the balance text is not an integer
    | Overflow          // the balance does not fit a signed 512-bit word
    | DigitsOutOfRange  // `toFixed` accepts 0 to 100 places

  const MaxFixedPlaces: nat := 100

  /** `formatBalance(balance, decimals, displayDecimals)`. */
  function FormatBalance(balance: string, decimals: nat, displayDecimals: nat): (r: Result<string, FormatError>)
    ensures r == Failure(DecimalsTooLarge) <==> decimals > MaxUnitsDecimals
    ensures r == Failure(InvalidBalance) <==> decimals <= MaxUnitsDecimals && GetBigInt(balance).None?
    ensures r == Failure(Overflow) <==>
              decimals <= MaxUnitsDecimals && GetBigInt(balance).Some? && !InWidth(GetBigInt(balance).value)
    ensures r == Failure(DigitsOutOfRange) <==>
              decimals <= MaxUnitsDecimals && GetBigInt(balance).Some? && InWidth(GetBigInt(balance).value)
              && displayDecimals > MaxFixedPlaces
    ensures r.Success? ==> Lex(r.value).Some? && |Lex(r.value).value.frac| == displayDecimals
                           && (Lex(r.value).value.point <==> displayDecimals > 0)
  {
    if decimals > MaxUnitsDecimals then Failure(DecimalsTooLarge)
    else match GetBigInt(balance)
    case None => Failure(InvalidBalance)
    case Some(raw) =>
      if !InWidth(raw) then Failure(Overflow)
      else if displayDecimals > MaxFixedPlaces then Failure(DigitsOutOfRange)
      else
        var x := ParseFloat(FormatUnits(raw, decimals));
        ParseFloatFormatUnits(raw, decimals);
        LexRender(ToFixedDecimal(x.r, displayDecimals));
        Success(ToFixed(x, displayDecimals))
  }

  // ---- what the formatted balance reads as ----

  /** The amount in whole tokens a raw balance stands for. */
  function Amount(raw: nat, decimals: nat): real {
    raw as real / Pow10(decimals) as real
  }

  lemma AmountNonNegative(raw: nat, decimals: nat)
    ensures Amount(raw, decimals) >= 0.0
  {
    NonNegDiv(raw as real, Pow10(decimals) as real);
  }

  lemma NonNegDiv(a: real, p: real)
    requires a >= 0.0 && p > 0.0
    ensures a / p >= 0.0
  {
  }

  /** The formatted balance reads back as the amount rounded to six places. */
  lemma FormattedValue(raw: nat, decimals: nat)
    ensures ParseFloat(Formatted(raw, decimals)) == Finite(Rounded(Amount(raw, decimals), DisplayPlaces))
  {
    var x := Amount(raw, decimals);
    ParseFloatFormatUnits(raw, decimals);
    AmountNonNegative(raw, decimals);
    ParseToFixed(x, DisplayPlaces);
    ToFixedSigned(x, DisplayPlaces);
  }

  /** `balanceFormatted` is within half a millionth of a token of the amount. */
  lemma FormattedClose(raw: nat, decimals: nat)
    ensures ParseFloat(Formatted(raw, decimals)).Finite?
    ensures Amount(raw, decimals) - 0.0000005 <= ParseFloat(Formatted(raw, decimals)).r
    ensures ParseFloat(Formatted(raw, decimals)).r <= Amount(raw, decimals) + 0.0000005
  {
    var x := Amount(raw, decimals);
    assert x - 0.0000005 <= Rounded(x, DisplayPlaces) <= x + 0.0000005 by {
      AmountNonNegative(raw, decimals);
      assert Pow10(DisplayPlaces) == 1000000;
      RoundedNear(x, DisplayPlaces, 0.0000005);
    }
    FormattedValue(raw, decimals);
  }

  /** The formatted balance reads as positive exactly when the amount is at
      least half a millionth of a token: smaller balances round to 0.000000. */
  lemma FormattedPositive(raw: nat, decimals: nat)
    ensures Positive(ParseFloat(Formatted(raw, decimals))) <==> 2 * raw * Pow10(DisplayPlaces) >= Pow10(decimals)
  {
    AmountRoundsPositive(raw, decimals);
    FormattedValue(raw, decimals);
  }

  lemma AmountRoundsPositive(raw: nat, decimals: nat)
    ensures Rounded(Amount(raw, decimals), DisplayPlaces) > 0.0 <==> 2 * raw * Pow10(DisplayPlaces) >= Pow10(decimals)
  {
    AmountNonNegative(raw, decimals);
    RoundedPositive(Amount(raw, decimals), DisplayPlaces);
    ScaledHalf(raw, Pow10(decimals), Pow10(DisplayPlaces));
  }

  lemma ScaledHalf(raw: nat, pd: nat, q: nat)
    requires pd > 0
    ensures (raw as real / pd as real) * q as real >= 0.5 <==> 2 * raw * q >= pd
  {
    var a := raw as real / pd as real;
    assert a * pd as real == raw as real;
    assert (a * q as real) * pd as real == (raw * q) as real;
    if a * q as real >= 0.5 {
      MulMonotone(0.5, a * q as real, pd as real);
    } else {
      MulMonotone(a * q as real, 0.5, pd as real);
    }
  }

  /** A zero balance formats as the placeholder, and the placeholder reads as 0. */
  lemma ZeroFormattedIsZero(decimals: nat)
    ensures Formatted(0, decimals) == ZeroFormatted
    ensures ParseFloat(ZeroFormatted) == Finite(0.0)
  {
    ParseFloatFormatUnits(0, decimals);
    ZeroDiv(Pow10(decimals) as real);
    ZeroToFixed();
    ZeroText();
  }

  lemma ZeroToFixed()
    ensures ToFixed(Finite(0.0), DisplayPlaces) == ZeroFormatted
  {
    assert RoundScaled(0.0, 6) == 0;
    assert Shift(0, 6) == 0;
    assert Fixed(0, 6) == [0, 0, 0, 0, 0, 0];
    assert Show(0) == [0];
    assert Chars([0]) == "0";
    assert Chars([0, 0, 0, 0, 0, 0]) == "000000";
  }

  lemma ZeroText()
    ensures ParseFloat(ZeroFormatted) == Finite(0.0)
  {
    var t := Decimal(false, [0], true, [0, 0, 0, 0, 0, 0]);
    assert Render(t) == ZeroFormatted by {
      assert Chars([0]) == "0";
      assert Chars([0, 0, 0, 0, 0, 0]) == "000000";
    }
    assert ValueOf(t) == 0.0 by {
      ValueZeros(t.whole + t.frac);
    }
    ParseFloatRender(t);
  }

  // ---- getAllTokenBalances: what is shown ----

  /** A candidate is shown exactly when its formatted balance reads as positive. */
  lemma ShownIffKept(node: Node, a: Addresses, user: string, i: nat)
    requires i < |AllCandidates(node, a, user)|
    ensures AllCandidates(node, a, user)[i] in GetAllTokenBalances(node, a, user)
            <==> KeepBalance(AllCandidates(node, a, user)[i])
  {
  }

  /** The ETH row is shown exactly when the balance read succeeds and the balance
      is at least half a millionth of an ether; a failed read's placeholder
      "0.000000" is never shown. */
  lemma EthShownIff(node: Node, a: Addresses, user: string)
    ensures GetEthBalance(node, user) in GetAllTokenBalances(node, a, user)
            <==> node.nativeBalance(user).Some?
                 && 2 * node.nativeBalance(user).value * Pow10(DisplayPlaces) >= Pow10(EtherDecimals)
  {
    ShownIffKept(node, a, user, 0);
    EthKeptIff(node, user);
  }

  lemma EthKeptIff(node: Node, user: string)
    ensures KeepBalance(GetEthBalance(node, user))
            <==> node.nativeBalance(user).Some?
                 && 2 * node.nativeBalance(user).value * Pow10(DisplayPlaces) >= Pow10(EtherDecimals)
  {
    match node.nativeBalance(user)
    case Some(raw) => FormattedPositive(raw, EtherDecimals);
    case None => ZeroText();
  }

  /** The row of the i-th listed token is shown exactly when its balance read
      succeeds and the balance is at least half a millionth of a token; the
      token's own symbol and decimals are never asked for. */
  lemma TokenShownIff(node: Node, a: Addresses, user: string, i: nat)
    requires i < |BaseTokens(a)|
    ensures var t := BaseTokens(a)[i];
            GetTokenBalance(node, t.address, user, Some(t)) in GetAllTokenBalances(node, a, user)
            <==> node.tokenBalance(t.address, user).Some?
                 && 2 * node.tokenBalance(t.address, user).value * Pow10(DisplayPlaces) >= Pow10(t.decimals)
  {
    var t := BaseTokens(a)[i];
    ShownIffKept(node, a, user, i + 1);
    TokenKeptIff(node, t, user);
  }

  /** A token row with a known symbol passes the filter exactly when
      `formatUnits` accepts its decimals, its balance read succeeds and the
      balance is at least half a millionth of a token. */
  lemma TokenKeptIff(node: Node, t: TokenInfo, user: string)
    requires t.symbol != ""
    ensures KeepBalance(GetTokenBalance(node, t.address, user, Some(t)))
            <==> t.decimals <= MaxUnitsDecimals && node.tokenBalance(t.address, user).Some?
                 && 2 * node.tokenBalance(t.address, user).value * Pow10(DisplayPlaces) >= Pow10(t.decimals)
  {
    var b := GetTokenBalance(node, t.address, user, Some(t));
    if t.decimals <= MaxUnitsDecimals && node.tokenBalance(t.address, user).Some? {
      var raw := node.tokenBalance(t.address, user).value;
      assert b.balanceFormatted == Formatted(raw, t.decimals);
      FormattedPositive(raw, t.decimals);
    } else {
      assert b.balanceFormatted == ZeroFormatted;
      ZeroText();
    }
  }

  /** When the ETH row is shown it comes first. */
  lemma EthFirst(node: Node, a: Addresses, user: string)
    requires KeepBalance(GetEthBalance(node, user))
    ensures |GetAllTokenBalances(node, a, user)| > 0
    ensures GetAllTokenBalances(node, a, user)[0] == GetEthBalance(node, user)
  {
    var c := AllCandidates(node, a, user);
    assert Seqs.Filter(c, KeepBalance) == [c[0]] + Seqs.Filter(c[1..], KeepBalance);
  }

  /** One wei is a positive balance that is still not shown. */
  lemma OneWeiHidden(node: Node, a: Addresses, user: string)
    requires node.nativeBalance(user) == Some(1)
    ensures GetEthBalance(node, user) !in GetAllTokenBalances(node, a, user)
  {
    EthShownIff(node, a, user);
    OneWeiBelowHalfMicro();
  }

  lemma OneWeiBelowHalfMicro()
    ensures 2 * 1 * Pow10(DisplayPlaces) < Pow10(EtherDecimals)
  {
    Pow10Add(6, 12);
    assert Pow10(6) == 1000000;
    assert Pow10(12) == 1000000000000;
  }

  // ---- getTokenBalance: where symbol and decimals come from ----

  /** A token that reports 0 decimals is formatted with 0 decimals but reported
      as having 18 (`decimals || 18`). */
  lemma ZeroDecimalsReportedAs18(node: Node, token: string, user: string, raw: nat)
    requires node.tokenSymbol(token).Some? && node.tokenDecimals(token) == Some(0)
    requires node.tokenBalance(token, user) == Some(raw)
    ensures GetTokenBalance(node, token, user, None).decimals == 18
    ensures GetTokenBalance(node, token, user, None).balanceFormatted == Formatted(raw, 0)
  {
    assert Metadata(node, token, None) == Some((node.tokenSymbol(token).value, 0));
  }

  /** With a known symbol the token's own metadata is never read: two nodes that
      agree on the balance give the same record. */
  lemma MetadataUnusedWhenKnown(n1: Node, n2: Node, token: string, user: string, info: Option<TokenInfo>)
    requires !FetchesMetadata(info)
    requires n1.tokenBalance(token, user) == n2.tokenBalance(token, user)
    ensures GetTokenBalance(n1, token, user, info) == GetTokenBalance(n2, token, user, info)
  {
  }

  /** A listed token is labelled from the table whatever the node answers, on
      success and on failure alike. */
  lemma KnownTokenLabelled(node: Node, a: Addresses, tokens: seq<string>, user: string, i: nat)
    requires i < |tokens| && FindToken(a, tokens[i]).Some?
    ensures var t := FindToken(a, tokens[i]).value;
            var r := GetMultipleTokenBalances(node, a, tokens, user);
            r[i].symbol == t.symbol && r[i].decimals == t.decimals
  {
  }

  // ---- formatBalance ----

  /** `formatBalance` of any text `getBigInt` reads as `raw` (an integer's
      own text, or a signed, padded, spaced or prefixed form of it) reads back
      within half a unit of its last place of the amount. */
  lemma FormatBalanceClose(balance: string, raw: int, decimals: nat, places: nat)
    requires GetBigInt(balance) == Some(raw)
    requires decimals <= MaxUnitsDecimals && InWidth(raw) && places <= MaxFixedPlaces
    ensures FormatBalance(balance, decimals, places).Success?
    ensures var y := ParseFloat(FormatBalance(balance, decimals, places).value);
            var x := raw as real / Pow10(decimals) as real;
            y.Finite? && x - 0.5 / Pow10(places) as real <= y.r <= x + 0.5 / Pow10(places) as real
  {
    var x := raw as real / Pow10(decimals) as real;
    FormatBalanceOfText(balance, raw, decimals, places);
    ParseToFixed(x, places);
    ToFixedClose(x, places);
  }

  /** When there are at least as many places as decimals nothing is rounded
      away: `formatBalance` reads back as the exact amount. */
  lemma FormatBalanceExact(balance: string, raw: int, decimals: nat, places: nat)
    requires GetBigInt(balance) == Some(raw)
    requires decimals <= MaxUnitsDecimals && decimals <= places <= MaxFixedPlaces && InWidth(raw)
    ensures FormatBalance(balance, decimals, places).Success?
    ensures ParseFloat(FormatBalance(balance, decimals, places).value)
            == Finite(raw as real / Pow10(decimals) as real)
  {
    var x := raw as real / Pow10(decimals) as real;
    FormatBalanceOfText(balance, raw, decimals, places);
    ToFixedReadsExact(x, raw, decimals, places);
  }

  /** On text `getBigInt` reads as `raw`, `formatBalance` is `toFixed` of the
      exact amount. */
  lemma FormatBalanceOfText(balance: string, raw: int, decimals: nat, places: nat)
    requires GetBigInt(balance) == Some(raw)
    requires decimals <= MaxUnitsDecimals && InWidth(raw) && places <= MaxFixedPlaces
    ensures FormatBalance(balance, decimals, places)
            == Success(ToFixed(Finite(raw as real / Pow10(decimals) as real), places))
  {
    ParseFloatFormatUnits(raw, decimals);
  }

  /** ethers reads a lone '-' as 0, so `formatBalance` gives zero for it
      instead of throwing. */
  lemma LoneMinusFormatsZero()
    ensures FormatBalance("-", EtherDecimals, DisplayPlaces) == Success(ZeroFormatted)
  {
    LoneMinus();
    assert FormatBalance("-", EtherDecimals, DisplayPlaces) == Success(Formatted(0, EtherDecimals));
    ZeroFormattedIsZero(EtherDecimals);
  }

  lemma ToFixedReadsExact(x: real, raw: int, decimals: nat, places: nat)
    requires decimals <= places && x == raw as real / Pow10(decimals) as real
    ensures ParseFloat(ToFixed(Finite(x), places)) == Finite(x)
  {
    ParseToFixed(x, places);
    ToFixedExact(x, raw, decimals, places);
  }

  lemma ToFixedExact(x: real, raw: int, decimals: nat, places: nat)
    requires decimals <= places && x == raw as real / Pow10(decimals) as real
    ensures ValueOf(ToFixedDecimal(x, places)) == x
  {
    ToFixedSigned(x, places);
    RoundedExact(raw, decimals, places);
    SignedAbs(x);
  }

  lemma SignedAbs(x: real)
    ensures (if x < 0.0 then -Abs(x) else Abs(x)) == x
  {
  }

  /** Rounding an amount with at most `places` decimals changes nothing. */
  lemma RoundedExact(raw: int, decimals: nat, places: nat)
    requires decimals <= places
    ensures var x := raw as real / Pow10(decimals) as real;
            Rounded(x, places) == Abs(x)
  {
    var x := raw as real / Pow10(decimals) as real;
    var w := AbsScaled(x, raw, decimals, places);
    RoundedWhole(x, places, w);
  }

  /** The size of such an amount is a whole number of last-place units. */
  lemma AbsScaled(x: real, raw: int, decimals: nat, places: nat) returns (w: nat)
    requires decimals <= places && x == raw as real / Pow10(decimals) as real
    ensures Abs(x) * Pow10(places) as real == w as real
  {
    AbsAmount(raw, decimals);
    w := MagnitudeScaled(Magnitude(raw), decimals, places);
  }

  lemma MagnitudeScaled(M: nat, decimals: nat, places: nat) returns (w: nat)
    requires decimals <= places
    ensures (M as real / Pow10(decimals) as real) * Pow10(places) as real == w as real
  {
    var p, q := Pow10(decimals), Pow10(places - decimals);
    Pow10Split(decimals, places);
    w := ScaledMagnitude(M as real / p as real, Pow10(places), M, p, q);
  }

  lemma ScaledMagnitude(a: real, P: nat, M: nat, p: nat, q: nat) returns (w: nat)
    requires p > 0 && a == M as real / p as real && P == p * q
    ensures a * P as real == w as real
  {
    w := M * q;
    CastMul(p, q);
    CastMul(M, q);
    DivMulCancel(M as real, p as real, q as real);
  }

  lemma Pow10Split(decimals: nat, places: nat)
    requires decimals <= places
    ensures Pow10(places) == Pow10(decimals) * Pow10(places - decimals)
  {
    Pow10Add(decimals, places - decimals);
  }

  lemma CastMul(a: int, b: int)
    ensures (a * b) as real == a as real * b as real
  {
  }

  lemma AbsAmount(raw: int, decimals: nat)
    ensures Abs(raw as real / Pow10(decimals) as real) == Magnitude(raw) as real / Pow10(decimals) as real
  {
    NegDiv(raw as real, Pow10(decimals) as real);
  }

  lemma DivMulCancel(a: real, p: real, q: real)
    requires p > 0.0
    ensures (a / p) * (p * q) == a * q
  {
  }

}
