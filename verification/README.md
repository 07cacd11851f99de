# Base wallet dashboard core, in Dafny

This project models the data core of a small Base-network wallet dashboard. The
core reads a user's balances and Seamless lending positions from an RPC node and
turns them into display text. It has three parts:

- **Balance aggregator** (`utils/fetchBalances.ts`). It reads the native ETH
  balance and the ERC-20 balances of the tokens in `BASE_TOKENS`. Each read
  either succeeds or degrades to a placeholder record (`"0"`, `"0.000000"`). The
  list keeps only the rows whose six-place text reads as positive. Also modelled:
  `getMultipleTokenBalances` (case-insensitive lookup in the table) and
  `formatBalance`, with each way it throws.
- **Position reader** (`utils/seamless.ts`). It walks the pool's reserve list,
  reads each reserve's record, and reads the user's aToken and variable-debt
  balances. It lists the reserves where either balance is nonzero, with the raw
  amounts, the six-place amounts and the ray-unit rates as text.
  `getUserAccountData` turns the pool's six account words into text.
- **Health-factor display** (`utils/seamless.ts`). `formatHealthFactor` picks
  "∞", "0.001", `toFixed(3|2|1)` or the floor. `getHealthFactorColor` picks one
  of four colour classes.

The numeric layer is modelled exactly on decimal text:

- ethers' `formatUnits`/`parseUnits` are modelled on a structured `Decimal`
  numeral, and `Lex` and `Render` are proved inverse to each other.
- JavaScript's `parseFloat` gives the exact rational value of a numeral. Any
  other text gives NaN.
- `Number.prototype.toFixed` rounds half up on the magnitude and writes the sign
  separately.
- ethers' `getBigInt` reads the balance text `formatBalance` is given. It takes
  off a leading '-' itself and hands the rest to JavaScript's `BigInt`, which
  trims white space and accepts `0x`/`0o`/`0b` prefixes and a '+' sign.

The RPC node is the `Chain.Node` oracle. Every call either answers or fails
(`None`), so every `try`/`catch` of the source becomes a match on an `Option`.
The network is a parameter: `Chain.CurrentAddresses(production)`.

The reserve walk of `getUserSeamlessPositions` skips each reserve on its own:

- `getReserveData` and the two amount readers catch their own errors and return
  `null` or `"0"`.
- So a reserve whose record cannot be read is skipped, and the other reserves
  are still listed.
- A failed amount read counts as a zero balance.
- Only a failed `getReservesList` call empties the list.
- The `parseUnits` calls inside the loop are the only other things that could
  throw. They are modelled as a `Result`, and `Positions.Walk` proves they never
  fail.

Modules, one per file: `Wrappers`, `Seqs`, `Digits`, `DecimalText`, `Units`,
`Numbers`, `BigIntText`, `FormatExamples`, `HealthFactor`, `HealthExamples`,
`Chain`, `Balances`, `Positions`.

## Model

| member | source | states |
|---|---|---|
| Units.FormatUnitsDecimal | utils/fetchBalances.ts:98 | `formatUnits` writes a well-formed numeral: it is negative exactly for negative values, has a point exactly when decimals > 0, and has no more fraction digits than decimals; the whole part is "0" or starts with a nonzero digit, and a fraction is trimmed of trailing zeros but keeps at least one digit |
| Units.FormatUnitsValue | utils/fetchBalances.ts:98 | the numeral `formatUnits(v, d)` writes denotes exactly v / 10^d |
| Units.ParseFormatUnits | utils/seamless.ts:212-218 | `parseUnits(formatUnits(v, d), d) == v`, so the raw amount a position reports is the balance that was read, and `parseUnits` never throws there |
| Units.ParseUnits | utils/seamless.ts:212-218 | `parseUnits` fails exactly on text outside the numeral grammar or with nonzero digits past the precision; otherwise the result times 10^(fraction length) equals the numeral's digits times 10^decimals |
| Units.ParseInteger | utils/fetchBalances.ts:58 | the integer text the core writes with `toString()`: it reads exactly the numerals without a point (an optional '-' and digits) and gives their integer |
| Units.ParseIntText | utils/fetchBalances.ts:58 | the `toString()` of a raw balance reads back as that balance |
| DecimalText.LexRender | utils/seamless.ts:212-215 | every well-formed numeral that is written reads back as itself |
| Numbers.ParseFloatFormatUnits | utils/fetchBalances.ts:59 | `parseFloat(formatUnits(v, d))` is exactly v / 10^d |
| Numbers.PositiveFormatUnits | utils/seamless.ts:208 | `parseFloat(formatUnits(v, d)) > 0` holds exactly when v > 0 |
| Numbers.ToFixedDecimal | utils/fetchBalances.ts:173 | `toFixed(places)` writes a well-formed numeral with exactly `places` fraction digits, a point exactly when places > 0, a minus sign exactly for negative values, and a whole part that is "0" or starts with a nonzero digit |
| Numbers.ParseFloat | utils/seamless.ts:258 | `parseFloat` gives a finite number exactly when the text is the written form of some numeral, and then the number is that numeral's value; every other text gives NaN |
| Numbers.RoundScaled | utils/fetchBalances.ts:59 | the integer `toFixed` writes for a magnitude m is the one nearest to m · 10^places, the larger one on a tie |
| Numbers.ToFixedClose | utils/fetchBalances.ts:173 | the value `toFixed(places)` writes is within half a unit of its last place of the input, for either sign |
| Numbers.ParseToFixed | utils/fetchBalances.ts:173 | `parseFloat(x.toFixed(p))` reads back the value of the written numeral |
| Numbers.RoundScaledMonotone | utils/seamless.ts:270-272 | rounding to a fixed number of places never reverses the order of two values |
| HealthFactor.DisplayPolicy | utils/seamless.ts:257-276 | each display row as a band of values, in both directions: "∞" exactly for NaN/±Infinity, zero and values above 1,000,000; "0.001" exactly for nonzero values below 0.001; 3, 2 and 1 places exactly on [0.001, 1), [1, 10) and [10, 100); the floor exactly on [100, 1,000,000] |
| HealthFactor.HealthTier | utils/seamless.ts:279-291 | green exactly for NaN/±Infinity, zero, values above the cap and values of at least 2; yellow exactly on [1.5, 2); orange exactly on [1.1, 1.5); red exactly for other nonzero values below 1.1 |
| HealthFactor.FormatHealthFactor | utils/seamless.ts:257-276 | the string argument is read with `parseFloat`; the result is "∞" exactly for text that is not a number, zero and values above the cap; any other value is written as a numeral that `parseFloat` reads back as `Shown(x)` |
| HealthFactor.GetHealthFactorColor | utils/seamless.ts:279-291 | green exactly for text that is not a number, zero, values above the cap and values of at least 2; yellow exactly on [1.5, 2); orange exactly on [1.1, 1.5); red exactly for other nonzero values below 1.1 |
| HealthFactor.ColorClass | utils/seamless.ts:283-290 | each tier has its own colour class, and each class names exactly one tier |
| HealthFactor.InfinityExactly | utils/seamless.ts:257-264 | the display is "∞" exactly for no debt (zero), NaN/±Infinity and values above the cap; every other value gets a numeral |
| HealthFactor.DisplayReadsBack | utils/seamless.ts:266-275 | every display of a finite nonzero value up to the cap is text that `parseFloat` reads back as `Shown(x)`, a number defined without any text |
| HealthFactor.ShownAccuracy | utils/seamless.ts:266-275 | the shown number is 0.001 below 0.001, within half a unit of the last place on the three fixed-place bands, and within one below the value on the floor band |
| HealthFactor.ShownRange | utils/seamless.ts:266-275 | each band's shown value stays inside the band's range, so the bands never overlap |
| HealthFactor.ShownMonotone | utils/seamless.ts:257-276 | a larger health factor never displays as a smaller number |
| HealthFactor.TierMonotone | utils/seamless.ts:279-291 | from any nonzero value, the risk tier never gets worse as the health factor grows |
| HealthFactor.TierAgreesWithDisplay | utils/seamless.ts:257-291 | "∞" is always green; "0.001" and three-place displays are always red; one-place and floor displays are always green |
| HealthFactor.InfinityBand | utils/seamless.ts:261-264 | every value in the "∞" band is also green |
| HealthFactor.ZeroRawIsInfinity | utils/seamless.ts:261 | a zero raw health factor, at any scale, is shown as "∞" in green |
| HealthFactor.LargeRawIsInfinity | utils/seamless.ts:264 | a raw health factor above 10^(decimals+6), a ratio above one million, is shown as "∞" in green |
| HealthFactor.NoDebtIsInfinity | utils/seamless.ts:264 | the pool's no-debt word (2^256 - 1 at 18 decimals) is shown as "∞" in green |
| HealthExamples.ExampleTwoPlaces | utils/seamless.ts:271 | "1.23456" is shown as "1.23" |
| HealthExamples.ExampleZero | utils/seamless.ts:261 | "0" is shown as "∞" |
| HealthExamples.ExampleMinimum | utils/seamless.ts:267 | "0.0005" is shown as "0.001" |
| HealthExamples.ExampleOnePlace | utils/seamless.ts:272 | "55.9" is shown as "55.9" |
| HealthExamples.ExampleRed | utils/seamless.ts:290 | "1.05" is red |
| HealthExamples.ExampleYellow | utils/seamless.ts:288 | "1.8" is yellow |
| HealthExamples.ExampleGreen | utils/seamless.ts:287 | "2.0" is green |
| FormatExamples.FixedSixPlaces | utils/fetchBalances.ts:173 | 0.0078125 (2^-7, which a double holds exactly) at six places is written "0.007813": the tie in the seventh place rounds up |
| FormatExamples.FixedBelowOne | utils/fetchBalances.ts:59 | 0.5 at six places is written "0.500000", with a single "0" before the point |
| FormatExamples.UnitsTrimmed | utils/fetchBalances.ts:98 | `formatUnits(1500000, 6)` is "1.5": trailing zeros are trimmed |
| FormatExamples.UnitsZero | utils/fetchBalances.ts:98 | `formatUnits(0, 18)` is "0.0": one fraction digit is always kept |
| BigIntText.PlainAgrees | utils/fetchBalances.ts:172 | on the plain base-10 integers `Units.ParseInteger` reads, `getBigInt` gives the same integer |
| BigIntText.ReadsIntText | utils/fetchBalances.ts:172 | the `toString()` text of any integer reads back through `getBigInt` as that integer |
| BigIntText.SpacesIgnored | utils/fetchBalances.ts:172 | ECMAScript white space and line terminators around the text change nothing `BigInt` reads |
| BigIntText.OtherForms | utils/fetchBalances.ts:172 | a lone "-" reads as 0, "+5" and " 5\n" as 5, "0x1f" as 31, "-0x10" as -16 and "0b101" as 5 |
| BigIntText.Refused | utils/fetchBalances.ts:172 | the empty string, "--5", "1.5", "1e3", "+0x10" and "0x" are refused |
| Chain.Lower | utils/fetchBalances.ts:154 | `toLowerCase` keeps the length, turns each upper-case ASCII letter into its lower-case partner and changes no other character |
| Chain.LowerIdempotent | utils/fetchBalances.ts:154 | lower-casing twice is the same as once |
| Balances.BaseTokens | utils/fetchBalances.ts:22-41 | the table has three tokens, each with a nonempty symbol and between 1 and 18 decimals |
| Balances.GetEthBalance | utils/fetchBalances.ts:49-72 | the ETH row always has symbol "ETH" and 18 decimals; a failed read gives "0" and "0.000000"; otherwise the raw text reads back as the balance that was read, and the formatted text is the six-place formatting of that balance at 18 decimals |
| Balances.GetTokenBalance | utils/fetchBalances.ts:75-120 | the row keeps the token's address and always has a nonempty symbol and nonzero decimals; any failed read (metadata when needed, or the balance) or more than 80 decimals for `formatUnits` gives "0" and "0.000000"; otherwise the raw text reads back as the balance, and the formatted text is the six-place formatting of that balance at the decimals used |
| Balances.TokenLabel | utils/fetchBalances.ts:84-117 | a caller-supplied nonempty symbol is kept on every path, with the caller's decimals or 18 when they are 0; otherwise a successful row carries the token's own symbol and decimals, or "UNKNOWN" and 18 when they are empty or 0; a failed row is labelled "UNKNOWN" with the caller's decimals, or 18 when there are none or they are 0 |
| Balances.AllCandidates | utils/fetchBalances.ts:127-134 | ETH first, then one row per table token in table order, each read with its table entry |
| Balances.GetAllTokenBalances | utils/fetchBalances.ts:123-144 | the result keeps only rows whose formatted text reads as positive, in the candidates' order (a subsequence) |
| Balances.ShownIffKept | utils/fetchBalances.ts:137-139 | a candidate row is listed exactly when its formatted balance reads as positive |
| Balances.EthShownIff | utils/fetchBalances.ts:49-72 | the ETH row is listed exactly when its read succeeds and 2 · raw · 10^6 ≥ 10^18, so the failure placeholder is never listed |
| Balances.TokenShownIff | utils/fetchBalances.ts:75-120 | a table token's row is listed exactly when its balance read succeeds and 2 · raw · 10^6 ≥ 10^decimals |
| Balances.EthKeptIff | utils/fetchBalances.ts:59 | the ETH row passes the filter exactly when its read succeeds and 2 · raw · 10^6 ≥ 10^18 |
| Balances.TokenKeptIff | utils/fetchBalances.ts:97-104 | a token row with a known symbol passes the filter exactly when its decimals are at most 80, its balance read succeeds and 2 · raw · 10^6 ≥ 10^decimals |
| Balances.EthFirst | utils/fetchBalances.ts:127-139 | when the ETH row is listed it comes first |
| Balances.OneWeiHidden | utils/fetchBalances.ts:59 | a balance of one wei is positive but never listed |
| Balances.FindToken | utils/fetchBalances.ts:153-155 | the lookup finds a table entry exactly when some entry's address matches ignoring case, and returns the first such entry |
| Balances.GetMultipleTokenBalances | utils/fetchBalances.ts:147-164 | one row per requested address, in request order, with no filtering, each labelled from the table entry that matches it |
| Balances.KnownTokenLabelled | utils/fetchBalances.ts:152-157 | a requested token found in the table is labelled with the table's symbol and decimals, whether its reads succeed or fail |
| Balances.MetadataUnusedWhenKnown | utils/fetchBalances.ts:85-95 | when the caller supplies a symbol, the token's own symbol and decimals are never read |
| Balances.ZeroDecimalsReportedAs18 | utils/fetchBalances.ts:94-105 | a token reporting 0 decimals is formatted with 0 decimals but reported as having 18 |
| Balances.FormattedValue | utils/fetchBalances.ts:59 | the six-place text reads back as the amount rounded half up to six places |
| Balances.FormattedClose | utils/fetchBalances.ts:104 | the six-place text reads back within 0.0000005 of the exact amount |
| Balances.FormattedPositive | utils/fetchBalances.ts:138 | the six-place text reads as positive exactly when 2 · raw · 10^6 ≥ 10^decimals |
| Balances.ZeroFormattedIsZero | utils/fetchBalances.ts:115-116 | a zero balance formats as the failure placeholder "0.000000", which reads as 0 |
| Balances.FormatBalance | utils/fetchBalances.ts:167-174 | the throws, each stated in both directions and in the order ethers checks them: more than 80 decimals; balance text that `getBigInt` refuses; an integer outside a signed 512-bit word; more than 100 places; otherwise writes a numeral with exactly the requested number of places |
| Balances.FormatBalanceClose | utils/fetchBalances.ts:167-174 | on any text `getBigInt` reads as an integer raw within 512 bits (its own digits, or a '+', padded, spaced or prefixed form), at most 80 decimals and at most 100 places, the result reads back within half a unit of its last place of raw / 10^decimals |
| Balances.LoneMinusFormatsZero | utils/fetchBalances.ts:172-173 | a balance of "-" is read as 0, so it is formatted as "0.000000" instead of throwing |
| Balances.FormatBalanceExact | utils/fetchBalances.ts:167-174 | on any text `getBigInt` reads as raw, with at least as many places as decimals, the result reads back as exactly raw / 10^decimals |
| Positions.AssetMetadata | utils/seamless.ts:176-190 | a USDC reserve gets ("USDC", 6) and otherwise a WETH reserve gets ("WETH", 18), comparing addresses ignoring case; every other reserve, and only those, gets "UNKNOWN", with 18 decimals |
| Positions.AssetMetadataIgnoresCase | utils/seamless.ts:180-187 | the reserve address is compared ignoring case: lower-casing it changes nothing |
| Positions.KnownReservesMatchTokenTable | utils/seamless.ts:176-190 | on a network where USDC and WETH differ, their reserves get the balance table's symbol and decimals |
| Positions.ConfiguredTokensDistinct | utils/seamless.ts:180-190 | on both networks USDC and WETH are different accounts, and the AERO reserve is reported as "UNKNOWN" with 18 decimals |
| Positions.ReadAmount | utils/seamless.ts:108-151 | the supplied or borrowed amount text reads back, by `parseUnits` and by `parseFloat`, as the raw balance over 10^decimals; a failed read gives the text "0", which reads as zero |
| Positions.ZeroRawReads | utils/seamless.ts:126 | the failure placeholder "0" reads as zero under `parseUnits` at any precision and under `parseFloat` |
| Positions.AmountPositive | utils/seamless.ts:208 | `parseFloat(amount) > 0` holds exactly when the raw balance is nonzero |
| Positions.AmountFormatted | utils/seamless.ts:215 | a position's six-place amount is the balance table's formatting of the raw balance |
| Positions.PositionAt | utils/seamless.ts:171-233 | one reserve never throws; it yields a position exactly when its record can be read and the supplied or borrowed raw balance is nonzero; the position describes the reserve: symbol and decimals, token addresses, amounts that read back as the raw balances, rates that read back as the raw ray values |
| Positions.Walk | utils/seamless.ts:171-234 | the loop never throws, lists exactly the reserves that hold a position, in list order, and each entry describes its reserve |
| Positions.GetUserSeamlessPositions | utils/seamless.ts:154-241 | empty when the reserve list cannot be read; otherwise the assets listed are the reserves that hold a position, in the pool's order, and each entry describes its reserve |
| Positions.PositionListedIff | utils/seamless.ts:171-233 | a listed reserve appears among the positions exactly when the user holds a position in it |
| Positions.FailedReserveSkipped | utils/seamless.ts:172-174 | a reserve whose record cannot be read yields no position |
| Positions.DustPositionListed | utils/seamless.ts:208 | one wei supplied in an 18-decimal reserve is listed, although its six-place amount reads as zero (the balance list would hide it) |
| Positions.GetUserAccountData | utils/seamless.ts:35-72 | `null` exactly when the pool call fails; otherwise the six words read back as the pool's values, and the formatted health factor reads back as the raw value, exactly under `parseUnits` and as raw / 10^18 under `parseFloat` |
| Positions.NoDebtAccountShown | utils/seamless.ts:59-67 | an account without debt has its health factor shown as "∞" in green |
| Positions.ZeroHealthAccountShown | utils/seamless.ts:59-67 | an account whose health factor word is zero is also shown as "∞" in green |

## Left out

- `calculateAPY` and `formatUsdValue`: they are floating-point exponentiation and locale currency formatting, and are not part of this model.
- UI components, pages, wallet connection, retry timers and the `console.error` logging have no bearing on the values computed.
- The RPC provider and contract ABI decoding are replaced by the `Chain.Node` oracle. Concurrency (`Promise.all`) is not modelled because each read is independent.
- Numbers.ParseFloat: values are exact rationals, where JavaScript rounds each `parseFloat` result to the nearest IEEE-754 double. Text outside the plain-numeral grammar (exponents, leading whitespace, prefixes `parseFloat` would still accept) reads as NaN.
- Numbers.ToFixed: the exponential form JavaScript writes for magnitudes of 10^21 and more is not modelled.
- Numbers.ToFixed: rounding is applied to the exact value, where JavaScript rounds the nearest double. A decimal half-way value such as 1234.5678905 is usually held a little below the tie and rounds down in JavaScript ("1234.567890"). A value just past a threshold can also land on it. So at the exact thresholds the following differ from the program: `Balances.EthShownIff`, `Balances.TokenShownIff`, `Balances.EthKeptIff`, `Balances.TokenKeptIff` and `Balances.FormattedPositive` list a row when 2 · raw · 10^6 = 10^decimals, while JavaScript hides it (5·10^11 wei parses to 4.99999999999999977e-7, written "0.000000").
- HealthFactor.LargeRawIsInfinity: holds for the exact ratio only. A raw value just above 10^(decimals+6), such as 10^24 + 1 at 18 decimals, parses to the double 1e6 exactly, and the program shows "1000000" rather than "∞". With doubles the promise holds only once the ratio is past the midpoint between 1,000,000 and the next double above it.
- Units.FormatUnitsDecimal: ethers throws for more than 80 decimals and for values outside a signed 512-bit word (its `width: 512` format), and this function accepts every input. The two checks are modelled where the core can meet them: `Balances.FormatBalance` takes arbitrary text and decimals, and `Balances.GetTokenBalance` can be given a token's own decimals. Everywhere else the decimals are at most 27 and the values are the node's 256-bit words.
- Units.ParseUnits: ethers' 80-decimal and 512-bit checks are not modelled. In the core it only reads text that `formatUnits` wrote from a 256-bit word, at no more than 18 decimals, so neither check can fail there.
- Chain.Node: the node's answers are unbounded naturals, whereas a real node returns 256-bit words. No 256-bit word can trip ethers' 512-bit width check, so that check is not applied to the node's answers.
- Balances.FormatBalance: negative `displayDecimals`, which JavaScript rejects, cannot be expressed because places are a `nat`.
- Units.ParseInteger: reads only the plain base-10 integers the core writes itself (its balance records). The full grammar `formatBalance` accepts is `BigIntText.GetBigInt`, and the two agree on plain integers (`BigIntText.PlainAgrees`).
- BigIntText.GetBigInt: only its string path is modelled. The number and bigint arguments ethers also accepts cannot reach `formatBalance`, whose balance is a string.
- Chain.Lower: only ASCII letters are lower-cased. That is all that can occur in hexadecimal addresses.
- Positions.GetReserveData has no contract of its own. It is the oracle's reserve read, which `Positions.PositionAt` goes through, and its failure case is stated by `Positions.FailedReserveSkipped`.
