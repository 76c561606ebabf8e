# Notification text extraction of the auto-accounting listener

This project models the part of the auto-accounting app's `GPayListenerService` that turns a
posted Android notification into an expense row: the payment-keyword gate
(`containsPaymentKeyword`), the amount parser (`parseAmount`, driven by fixed regular
expressions), the merchant extractor (`parseMerchant` with its hint patterns, title fallback and
`trimMerchant`), `joinNonBlank`, `resolveAppLabelOrPkg`, and the decision in
`onNotificationPosted` whether to store a row and with which fields.

Two revisions of the listener exist and both are modelled, selected by `Config.Revision`:

- `Legacy`: `app/src/main/java/com/example/auto_accounting/GPayListenerService.java`. It listens
  only to the Google Pay/Wallet packages. It uses one amount pattern whose currency parts are all
  optional, so the amount starts at the first digit of the content. It falls back to
  "UnknownMerchant" and appends a CSV row.
- `Current`: `main/java/com/example/auto_accounting/notify/GPayListenerService.java`. It listens to
  every app once tracking is on and skips ongoing and group-summary notifications. It also reads
  the text lines. It accepts only amounts with a currency marker in front or a currency code
  behind, each with one or two fraction digits. It knows refund keywords. It falls back to the
  app label or package name, and it stores amounts in cents.

The Java regular expressions are not interpreted by a general engine. Each fixed pattern has its
own matcher (`Patterns.MatchAt`) that makes the same choices Java's backtracking matcher makes.
Each pattern also has a ghost predicate for its language (`AmountLanguage`, `HintLanguage`,
`NoiseLanguage`, `Numbers`). A lemma per pattern proves that the matcher returns a member of the
language, and the member Java prefers among all members at that start. `Matcher.find()` is
`Patterns.Find`: the leftmost start with a match. `replaceAll("")` is `Patterns.DeleteAll`.

Module layout, leaf first:

- `chars`: character classes.
- `spans`: runs, occurrences, `\b`, `$`.
- `text`: `contains`, `toLowerCase`, `trim`, `joinNonBlank`.
- `numbers`, `patterns`: the matchers.
- `amount_language`, `hint_language`, `noise_language`: the languages and the matcher lemmas.
- `decimals`, `amounts`: `parseAmount`.
- `keywords`: the gate.
- `merchants`: `trimMerchant`, `parseMerchant`.
- `listener`: `onNotificationPosted`.
- `vectors`: worked examples.
- `scenario`: the test notification "Payment successful" / "You paid $12.34 at Starbucks", from the posted notification to the stored row.

Behaviour of the code that a reader may not expect:

- The gate looks at keywords only. A notification with a currency amount but no payment
  keyword is skipped.
- The current revision requires a `.` and one or two fraction digits in every amount. So `$5`
  is not an amount (`Vectors.WholeDollarsAreNoAmount`).
- Only the eight listed currency codes count as a suffix, and `¥` is the only yen sign.
- The merchant capture takes 2 to 60 chars of `[A-Za-z0-9&\-*.#\s]`, a class without an
  apostrophe. So "Paid at Joe's Cafe" yields the merchant "Joe" (`Vectors.ApostropheEndsMerchant`).
- The hint words are at, to, with, 向 and 给, tried in that order.
- Text is not whitespace-normalised. Whitespace inside a merchant name is not collapsed.
  `trimMerchant` removes one trailing `\s+\-*\s*$` match only, so it is not idempotent
  (`Vectors.TrimMerchantIsNotIdempotent`).
- In the legacy revision, `$1,234` is read as 1 dollar. Its grouped alternative requires a
  fraction, so the plain-digits alternative takes just "1" (`Vectors.LegacyReadsOneDollar`).
- When a matched number fails to parse, the code does not rescan. That case cannot arise: every
  matched group parses (`Amounts.FoundAmountParses`).

The functions that transcribe the Java methods carry little or no contract of their own. Each
is characterised by the lemmas named in the table:

- `Keywords.ContainsPaymentKeyword` by `Keywords.GateReducesToShortKeywords` and `Keywords.GateIgnoresCase`.
- `Amounts.ParseAmount` by `Amounts.CurrentAmountIffCurrencyContext`, `Amounts.CurrentPrefersLeftmostPrefix`,
  `Amounts.CurrentFallsBackToLeftmostSuffix`, `Amounts.LegacyAmountIffDigit` and `Amounts.LegacyReadsFromFirstDigit`.
- `Amounts.ParseGroup` and `Decimals.DecimalCents` by `Decimals.AmountNumberParses`, `Decimals.LegacyNumberParses`
  and `Decimals.FormatCentsRoundTrip`.
- `Text.JoinNonBlank` and `Listener.LinesJoin` by `Text.JoinNonBlankJoinsNonEmpty`.
- `Patterns.MatchAt` and its per-pattern matchers by `Amounts.MatchAtIffMember` and the `…IsJavaMatch` lemmas.
- `Merchants.HintCandidate`, `Merchants.Cleaned`, `Merchants.TitleFallback` and `Merchants.ParseMerchant` by
  `Merchants.ParseMerchantPrefersHints`, `Merchants.ParseMerchantFallsBackToTitle`, `Merchants.ParseMerchantNoneIff`
  and `Merchants.ParseMerchantIsBounded`.
- `Listener.RecordFrom`, `Listener.OnPostedCurrent` by `Listener.RecordFromIff`, `Listener.CurrentRecordsIff`,
  `Listener.CurrentRecordFields` and `Scenario.TestNotificationIsRecorded`.
- `Listener.LegacyRowOf`, `Listener.OnPostedLegacy` by `Listener.LegacyRowOfIff`, `Listener.LegacyRecordsIff`
  and `Listener.LegacyRowFields`.

## Model

| member | source | states |
|---|---|---|
| Text.Contains | main/java/com/example/auto_accounting/notify/GPayListenerService.java:117-120 | true exactly when the word occurs at some position of the text |
| Text.ContainsPart | main/java/com/example/auto_accounting/notify/GPayListenerService.java:117-118 | a text that contains a word contains every part of that word |
| Text.Trim | main/java/com/example/auto_accounting/notify/GPayListenerService.java:144 | the result is the slice of the input that leaves only chars at or below ' ' outside it, and starts and ends above ' ' when not empty |
| Text.TrimIsUnique | main/java/com/example/auto_accounting/notify/GPayListenerService.java:144 | there is one such slice, so the contract of `trim` determines its result |
| Text.TrimIsIdempotent | main/java/com/example/auto_accounting/notify/GPayListenerService.java:156 | trimming a trimmed text changes nothing |
| Text.TrimIsEmptyIff | main/java/com/example/auto_accounting/notify/GPayListenerService.java:156-157 | the trimmed text is empty exactly when every char is at or below ' ' |
| Text.TrimHead | main/java/com/example/auto_accounting/notify/GPayListenerService.java:177 | a non-empty trimmed text starts above ' ' |
| Text.TrimKeepsChars | main/java/com/example/auto_accounting/notify/GPayListenerService.java:177 | trimming introduces no char that was not in the input |
| Text.TrimTail | main/java/com/example/auto_accounting/notify/GPayListenerService.java:177 | a non-empty trimmed text ends above ' ' |
| Text.NonEmpty | main/java/com/example/auto_accounting/notify/GPayListenerService.java:188 | the kept parts are all non-empty, and there are none exactly when every part is empty |
| Text.JoinNonBlankJoinsNonEmpty | main/java/com/example/auto_accounting/notify/GPayListenerService.java:185-194 | `joinNonBlank` puts one separator between consecutive non-empty parts, in order, and none at the ends; it returns "" exactly when every part is empty |
| Text.JoinLoopContinuesJoin | main/java/com/example/auto_accounting/notify/GPayListenerService.java:187-192 | each loop step on a builder holding a join extends that join by the next non-empty part |
| Text.JoinIsEmptyIff | app/src/main/java/com/example/auto_accounting/GPayListenerService.java:190-199 | a join of non-empty parts is empty only when there are no parts |
| Keywords.AnyContained | main/java/com/example/auto_accounting/notify/GPayListenerService.java:117-120 | true exactly when some keyword of the list occurs in the text |
| Keywords.GateReducesToShortKeywords | main/java/com/example/auto_accounting/notify/GPayListenerService.java:114-121 | the gate passes exactly when the lowered text holds paid/payment/purchase (or refund, current revision), or the text holds 支付/付款 (or 扣款/退款, current revision); the longer keywords add nothing |
| Keywords.LowerGateIsShort | app/src/main/java/com/example/auto_accounting/GPayListenerService.java:119-123 | "purchased" adds nothing to "purchase", nor "refunded" to "refund" |
| Keywords.ExactGateIsShort | app/src/main/java/com/example/auto_accounting/GPayListenerService.java:124-127 | "已支付" adds nothing to "支付", nor "已付款" to "付款" |
| Keywords.GateIgnoresCase | main/java/com/example/auto_accounting/notify/GPayListenerService.java:116-120 | two texts that lower-case alike pass or fail the gate together |
| Keywords.LegacyGateImpliesCurrent | app/src/main/java/com/example/auto_accounting/GPayListenerService.java:117-128 | whatever the legacy gate lets through, the current gate lets through too |
| Keywords.ContainsLetterFree | main/java/com/example/auto_accounting/notify/GPayListenerService.java:119-120 | a word without ASCII letters occurs in a text exactly when it occurs in the text's lower-cased form |
| Spans.Run | main/java/com/example/auto_accounting/notify/GPayListenerService.java:29 | a greedy class run stays in the class and stops at the end or at a non-member |
| Spans.RunIsLongest | main/java/com/example/auto_accounting/notify/GPayListenerService.java:29 | no run of the class from the same start is longer than the greedy one |
| Patterns.SymbolEndIsSymbol | main/java/com/example/auto_accounting/notify/GPayListenerService.java:29 | the alternation of fixed markers matches exactly when one of them occurs, and then ends after an occurring one |
| Patterns.IsOneOfIff | main/java/com/example/auto_accounting/notify/GPayListenerService.java:32 | a three-letter word is accepted exactly when it is one of the listed currency codes |
| Patterns.Find | main/java/com/example/auto_accounting/notify/GPayListenerService.java:126-127 | `find()` returns the match at the leftmost start that has one, no start before it matches, and it returns nothing only when no start matches |
| Patterns.DeleteFrom | main/java/com/example/auto_accounting/notify/GPayListenerService.java:142 | `replaceAll("")` from a position keeps the text up to the next `find()` match, drops that match and goes on after it, so it is strictly shorter than the rest of the text; with no match left it keeps the rest whole; it never adds chars |
| Patterns.DeleteAll | main/java/com/example/auto_accounting/notify/GPayListenerService.java:143 | `replaceAll("")` keeps the text before the first `find()` match and goes on after that match; it returns the input unchanged when `find()` fails and a strictly shorter text otherwise, and never adds chars |
| Numbers.GroupsEnd | main/java/com/example/auto_accounting/notify/GPayListenerService.java:29 | the greedy `(?:,[0-9]{3})*` stops where no further comma group follows |
| Numbers.FractionEnd | main/java/com/example/auto_accounting/notify/GPayListenerService.java:29 | the greedy `\.[0-9]{1,2}` returns the longest fraction, and none exactly when no fraction starts there |
| Numbers.GroupedIntegerIsGreedy | main/java/com/example/auto_accounting/notify/GPayListenerService.java:29 | a grouped integer has a head of one to three digits, and its groups are the greedy ones |
| Numbers.GreedyGroupsAreGrouped | main/java/com/example/auto_accounting/notify/GPayListenerService.java:29 | a head followed by the greedy groups is a grouped integer |
| Numbers.SplitIsForced | main/java/com/example/auto_accounting/notify/GPayListenerService.java:29 | every member of the number language has its decimal point at one of the two places the matcher tries |
| Numbers.NumberEndIsMember | main/java/com/example/auto_accounting/notify/GPayListenerService.java:29 | the number the matcher takes is a member of the number language: a grouped or plain integer followed by a point and one or two digits |
| Numbers.NumberEndCoversMember | main/java/com/example/auto_accounting/notify/GPayListenerService.java:29 | every member of the number language at a start is found, none is longer, and a shorter one stops before a digit |
| Numbers.NumberEndIsLongest | main/java/com/example/auto_accounting/notify/GPayListenerService.java:29 | the number matcher returns the longest member of the number language, and nothing when there is none |
| Numbers.LegacyNumberEndIsLongest | app/src/main/java/com/example/auto_accounting/GPayListenerService.java:41 | the legacy number matcher succeeds exactly at a digit and returns the longest member of the legacy number language |
| AmountLanguage.MarkersClash | main/java/com/example/auto_accounting/notify/GPayListenerService.java:29 | the currency markers pairwise disagree within their common length, so at most one occurs at any position |
| AmountLanguage.MarkerIsUnique | main/java/com/example/auto_accounting/notify/GPayListenerService.java:29 | the matcher's marker is the only one at a position; only the blanks after "AUD" can be split differently |
| AmountLanguage.MarkerEndIsMarker | main/java/com/example/auto_accounting/notify/GPayListenerService.java:29 | the marker the matcher takes is a currency marker of the pattern |
| AmountLanguage.MarkerStartsWithHead | main/java/com/example/auto_accounting/notify/GPayListenerService.java:29 | every marker starts with A, $, ₹, €, £ or ¥ |
| AmountLanguage.NumberStartsWithDigit | main/java/com/example/auto_accounting/notify/GPayListenerService.java:29 | every member of the number language starts with a digit |
| AmountLanguage.PrefixAtIsMember | main/java/com/example/auto_accounting/notify/GPayListenerService.java:28-30 | what the AMOUNT_PREFIX matcher returns is a member of the pattern's language, with group 1 at the number |
| AmountLanguage.PrefixAtCoversMember | main/java/com/example/auto_accounting/notify/GPayListenerService.java:28-30 | every member of AMOUNT_PREFIX's language at a start has the matcher's group start, and none reaches further |
| AmountLanguage.PrefixAtIsJavaMatch | main/java/com/example/auto_accounting/notify/GPayListenerService.java:28-30 | the AMOUNT_PREFIX matcher returns the longest member of the language at a start, and nothing exactly when there is none |
| AmountLanguage.PrefixGroupStart | main/java/com/example/auto_accounting/notify/GPayListenerService.java:29 | a number after a marker and blanks starts exactly where the matcher looks for it |
| AmountLanguage.CodeStartsWithLetter | main/java/com/example/auto_accounting/notify/GPayListenerService.java:32 | every currency code starts with an upper-case letter, neither a digit nor a blank |
| AmountLanguage.SpacedCodeStopsNumber | main/java/com/example/auto_accounting/notify/GPayListenerService.java:32 | blanks followed by a code do not start with a digit, so the number before them cannot run on |
| AmountLanguage.SuffixAtIsMember | main/java/com/example/auto_accounting/notify/GPayListenerService.java:31-33 | what the AMOUNT_SUFFIX matcher returns is a member of its language, with group 1 at the number |
| AmountLanguage.SuffixAtFindsMember | main/java/com/example/auto_accounting/notify/GPayListenerService.java:31-33 | any member of AMOUNT_SUFFIX's language at a start is exactly the match the matcher returns |
| AmountLanguage.SuffixAtIsJavaMatch | main/java/com/example/auto_accounting/notify/GPayListenerService.java:31-33 | AMOUNT_SUFFIX's language has at most one member at a start, and the matcher returns it |
| AmountLanguage.LeadHasNoDigit | app/src/main/java/com/example/auto_accounting/GPayListenerService.java:41 | the optional `(?:AUD\s*)?\$?\s*` lead never holds a digit |
| AmountLanguage.GreedyLeadIsLead | app/src/main/java/com/example/auto_accounting/GPayListenerService.java:41 | the lead the legacy matcher takes greedily is a lead of the pattern |
| AmountLanguage.GreedyLeadReachesDigit | app/src/main/java/com/example/auto_accounting/GPayListenerService.java:41 | any lead that ends at a digit ends where the greedy lead ends |
| AmountLanguage.LegacyAtIsMember | app/src/main/java/com/example/auto_accounting/GPayListenerService.java:40-42 | the legacy matcher returns a member of AMOUNT_PATTERN's language, with its group at the first digit from the start |
| AmountLanguage.LegacyAtCoversMember | app/src/main/java/com/example/auto_accounting/GPayListenerService.java:40-42 | every member of the legacy language at a start has the matcher's group start, and none reaches further |
| AmountLanguage.LegacyAtIsJavaMatch | app/src/main/java/com/example/auto_accounting/GPayListenerService.java:40-42 | the legacy matcher returns the longest member of the language at a start, and nothing exactly when there is none |
| Decimals.RemoveCommas | main/java/com/example/auto_accounting/notify/GPayListenerService.java:128 | `replace(",", "")` leaves no comma and never lengthens the text |
| Decimals.RemoveCommasDistributes | main/java/com/example/auto_accounting/notify/GPayListenerService.java:128 | removing commas from a concatenation removes them from each part |
| Decimals.RemoveCommasKeepsCommaFree | main/java/com/example/auto_accounting/notify/GPayListenerService.java:133 | a text without commas is left as it is |
| Decimals.FormatCentsRoundTrip | main/java/com/example/auto_accounting/notify/GPayListenerService.java:98 | reading a formatted cents value as `round(parseDouble(t) * 100)` gives back that value |
| Decimals.GroupedIntegerLosesCommas | main/java/com/example/auto_accounting/notify/GPayListenerService.java:128 | a grouped integer without its commas is a non-empty digit string |
| Decimals.AmountNumberParses | main/java/com/example/auto_accounting/notify/GPayListenerService.java:128-129 | every current-revision number group without its commas is a decimal `parseDouble` accepts, so the `NumberFormatException` branch is never taken |
| Decimals.LegacyNumberParses | app/src/main/java/com/example/auto_accounting/GPayListenerService.java:135-138 | every legacy number group without its commas is a decimal `parseDouble` accepts |
| Amounts.MatchAtIffMember | main/java/com/example/auto_accounting/notify/GPayListenerService.java:126-132 | each amount matcher succeeds at a start exactly when its pattern's language has a member there |
| Amounts.FoundAmountParses | main/java/com/example/auto_accounting/notify/GPayListenerService.java:127-129 | whenever `find()` succeeds, the group it found parses |
| Amounts.CurrentAmountIffCurrencyContext | main/java/com/example/auto_accounting/notify/GPayListenerService.java:124-137 | the current `parseAmount` returns an amount exactly when the content holds a prefixed or a suffixed amount somewhere |
| Amounts.AmountNumberHasPoint | main/java/com/example/auto_accounting/notify/GPayListenerService.java:29 | every number the current revision accepts holds a decimal point |
| Amounts.AmountNumberNeedsPoint | main/java/com/example/auto_accounting/notify/GPayListenerService.java:32 | a text holding a current-revision number holds a `.` |
| Amounts.CurrentAmountNeedsPoint | main/java/com/example/auto_accounting/notify/GPayListenerService.java:124-137 | content without a `.` never yields an amount: bare integers are never amounts |
| Amounts.CurrentPrefersLeftmostPrefix | main/java/com/example/auto_accounting/notify/GPayListenerService.java:126-130 | when prefixed amounts exist, the result is the value of the leftmost one, read as far as its number goes |
| Amounts.CurrentFallsBackToLeftmostSuffix | main/java/com/example/auto_accounting/notify/GPayListenerService.java:131-135 | without any prefixed amount, the result is the value of the leftmost suffixed amount |
| Amounts.LegacyAmountIffDigit | app/src/main/java/com/example/auto_accounting/GPayListenerService.java:131-141 | the legacy `parseAmount` returns an amount exactly when the content holds an ASCII digit |
| Amounts.NoLegacyMatchNoDigit | app/src/main/java/com/example/auto_accounting/GPayListenerService.java:133-134 | a content where the legacy pattern finds nothing has no digit |
| Amounts.LegacyDigitStartsMatch | app/src/main/java/com/example/auto_accounting/GPayListenerService.java:41 | at every digit the legacy pattern matches, with its group starting there |
| Amounts.LegacyMatchStartsAtFirstDigit | app/src/main/java/com/example/auto_accounting/GPayListenerService.java:133-135 | the legacy `find()` match has its group at the content's first digit |
| Amounts.LegacyReadsFromFirstDigit | app/src/main/java/com/example/auto_accounting/GPayListenerService.java:131-141 | the legacy amount is the longest legacy number at the content's first digit |
| Amounts.LegacyMatchIsLongest | app/src/main/java/com/example/auto_accounting/GPayListenerService.java:41 | the legacy match's group ends where the longest legacy number at its start ends |
| Amounts.DollarAmountIsPrefixAmount | main/java/com/example/auto_accounting/notify/GPayListenerService.java:29 | `$` followed by a cents value written with two fraction digits is a prefixed amount |
| Amounts.DollarAmountRoundTrip | main/java/com/example/auto_accounting/notify/GPayListenerService.java:124-130 | `parseAmount` of `$` followed by a formatted cents value returns that value |
| Amounts.DollarAmountInTextRoundTrip | main/java/com/example/auto_accounting/notify/GPayListenerService.java:124-130 | after text with no A, $, ₹, €, £ or ¥, `$` and a formatted cents value read back as that value, whatever follows |
| Amounts.DollarCentsInText | main/java/com/example/auto_accounting/notify/GPayListenerService.java:124-130 | after text with no A, $, ₹, €, £ or ¥, `$` and any two-decimal number read back as the cents that number parses to, whatever follows |
| NoiseLanguage.GreedyNoiseEnd | main/java/com/example/auto_accounting/notify/GPayListenerService.java:178 | the greedy runs of `\s+\-*\s*` stop at the end or before a non-blank |
| NoiseLanguage.SplitEndsWithinGreedy | main/java/com/example/auto_accounting/notify/GPayListenerService.java:178 | no way of splitting the pattern reaches past the greedy runs |
| NoiseLanguage.EndAnchorMovesRight | main/java/com/example/auto_accounting/notify/GPayListenerService.java:178 | `$` still holds after blanks that end at the end of the text or before a non-blank |
| NoiseLanguage.TrailingNoiseAtIsJavaMatch | main/java/com/example/auto_accounting/notify/GPayListenerService.java:178 | the `\s+\-*\s*$` matcher returns a match of the pattern whenever one exists at the start, and none ends later |
| NoiseLanguage.NoNoiseAfterNoise | main/java/com/example/auto_accounting/notify/GPayListenerService.java:178 | once the noise pattern has matched, it matches nowhere at or after the end of that match |
| NoiseLanguage.NothingToFind | main/java/com/example/auto_accounting/notify/GPayListenerService.java:178 | where no start matches, `find()` fails and `replaceAll("")` keeps the text |
| NoiseLanguage.RemoveNoiseCutsFirstMatch | main/java/com/example/auto_accounting/notify/GPayListenerService.java:178 | `replaceAll("")` with `\s+\-*\s*$` removes exactly the leftmost match and keeps everything else |
| HintLanguage.CaptureAtIsLongest | main/java/com/example/auto_accounting/notify/GPayListenerService.java:37 | the greedy `{2,60}` capture is a capture of the class, and no capture from the same start is longer |
| HintLanguage.SpacesThenCaptureIsPreferred | main/java/com/example/auto_accounting/notify/GPayListenerService.java:37 | giving back whitespace one char at a time finds the capture Java prefers: the latest group start, then the latest end |
| HintLanguage.CaptureHereIsPreferred | main/java/com/example/auto_accounting/notify/GPayListenerService.java:37 | a capture right after all the whitespace is the preferred one |
| HintLanguage.BackOffKeepsPreferred | main/java/com/example/auto_accounting/notify/GPayListenerService.java:37-39 | without a capture after all the whitespace, the preferred capture after one char less is still preferred |
| HintLanguage.HintAtIsMember | main/java/com/example/auto_accounting/notify/GPayListenerService.java:36-42 | what the hint matcher returns is a match of the hint pattern, with group 1 at the capture |
| HintLanguage.HintAtCoversMember | main/java/com/example/auto_accounting/notify/GPayListenerService.java:36-42 | wherever the hint pattern matches, the matcher finds a match, and Java prefers it to every other match |
| HintLanguage.HintAtIsJavaMatch | main/java/com/example/auto_accounting/notify/GPayListenerService.java:36-42 | the hint matcher returns the match Java's backtracking picks, and nothing exactly when the pattern has no match there |
| Merchants.BlankSeparators | main/java/com/example/auto_accounting/notify/GPayListenerService.java:174-176 | the three `replace` calls together turn each bar, bullet and ellipsis into a space and keep every other char in place |
| Merchants.BlankSeparatorsBlankIff | main/java/com/example/auto_accounting/notify/GPayListenerService.java:174-177 | after blanking, the text is all trimmable exactly when the original held only trimmable chars and separators |
| Merchants.NoiseRemovalKeepsHead | main/java/com/example/auto_accounting/notify/GPayListenerService.java:178 | removing trailing noise from a text that starts with a non-blank keeps that first char |
| Merchants.TrimMerchant | main/java/com/example/auto_accounting/notify/GPayListenerService.java:172-180 | the result has at most 60 chars, holds no separator, draws only on blanks and input chars, starts above ' ', and is empty exactly when the input holds only trimmable chars and separators |
| Merchants.TrimMerchantCutsNoise | main/java/com/example/auto_accounting/notify/GPayListenerService.java:172-180 | with `t` the blanked, trimmed input, the result is `t` with its leftmost `\s+\-*\s*$` match cut out, cut to 60 chars; that match runs to the end of `t` or stops before a final line terminator, which stays, and no earlier start matches; without a match `t` is kept whole |
| Merchants.NoiseRemovalCutsTail | main/java/com/example/auto_accounting/notify/GPayListenerService.java:178 | on a text that ends above ' ', `replaceAll("")` with `\s+\-*\s*$` cuts out exactly the leftmost match, which reaches the end or a final line terminator |
| Merchants.TrimMerchantDropsTrailingBlanks | main/java/com/example/auto_accounting/notify/GPayListenerService.java:172-180 | a name of at most 60 chars without blanks or separators, followed by any blanks and separators, trims back to the name |
| Merchants.TrimMerchantKeepsPlainName | main/java/com/example/auto_accounting/notify/GPayListenerService.java:172-180 | a name of at most 60 chars without blanks or separators is its own `trimMerchant` |
| Merchants.TrimMerchantHead | main/java/com/example/auto_accounting/notify/GPayListenerService.java:177-179 | after trimming, noise removal and the cut, the result is empty exactly when the blanked text was all trimmable, and otherwise starts above ' ' |
| Merchants.TrimMerchantKeepsChars | main/java/com/example/auto_accounting/notify/GPayListenerService.java:174-179 | every step of `trimMerchant` only removes chars or blanks separators |
| Merchants.NoNoiseAtNonSpace | main/java/com/example/auto_accounting/notify/GPayListenerService.java:178 | trailing noise cannot start at a non-blank |
| Merchants.StripAmounts | main/java/com/example/auto_accounting/notify/GPayListenerService.java:142-143 | removing the amounts never lengthens the text or adds chars, and leaves it unchanged exactly when neither AMOUNT_PREFIX nor AMOUNT_SUFFIX finds a match (legacy revision: when AMOUNT_PATTERN finds none) |
| Merchants.StripWithoutPointKeepsText | main/java/com/example/auto_accounting/notify/GPayListenerService.java:142-143 | a text without `.` keeps every char when the current revision's amounts are removed |
| Merchants.DeleteAroundTwoMatches | main/java/com/example/auto_accounting/notify/GPayListenerService.java:142-143 | when `find()` succeeds twice and then fails, `replaceAll("")` keeps exactly the three stretches around the two matches, in order |
| Merchants.LegacyDeleteRemovesDigits | app/src/main/java/com/example/auto_accounting/GPayListenerService.java:151 | the text AMOUNT_PATTERN's `replaceAll("")` keeps holds no digit |
| Merchants.LegacyStripRemovesDigits | app/src/main/java/com/example/auto_accounting/GPayListenerService.java:162 | the legacy amount removal leaves no ASCII digit |
| Merchants.NoLegacyMatchInBetween | app/src/main/java/com/example/auto_accounting/GPayListenerService.java:151 | a stretch where the legacy pattern matches nowhere holds no digit |
| Merchants.FirstName | main/java/com/example/auto_accounting/notify/GPayListenerService.java:146-152 | the loop returns the first candidate that is present and non-empty, and nothing exactly when there is none |
| Merchants.FirstHint | main/java/com/example/auto_accounting/notify/GPayListenerService.java:146-152 | the hint loop returns the candidate of the first hint, in order, whose candidate is non-empty, and nothing when no hint yields one |
| Merchants.ParseMerchantPrefersHints | main/java/com/example/auto_accounting/notify/GPayListenerService.java:140-152 | when some hint yields a merchant in the cleaned text, `parseMerchant` returns the first such hint's candidate |
| Merchants.ParseMerchantFallsBackToTitle | main/java/com/example/auto_accounting/notify/GPayListenerService.java:154-157 | when no hint yields, the result is `trimMerchant` of the title without amounts, or null (current) or "UnknownMerchant" (legacy) when that is empty |
| Merchants.ParseMerchantNoneIff | main/java/com/example/auto_accounting/notify/GPayListenerService.java:140-158 | `parseMerchant` returns null only in the current revision, exactly when no hint yields and the title holds only amounts and blanks |
| Merchants.HintCandidateIsBounded | main/java/com/example/auto_accounting/notify/GPayListenerService.java:149 | every hint candidate has at most 60 chars and no separator |
| Merchants.ParseMerchantIsBounded | main/java/com/example/auto_accounting/notify/GPayListenerService.java:140-158 | every merchant `parseMerchant` returns has at most 60 chars and no separator |
| Merchants.UnknownMerchantIsBounded | app/src/main/java/com/example/auto_accounting/GPayListenerService.java:166 | the legacy placeholder is a bounded, digit-free name |
| Merchants.TrimMerchantKeepsDigitFree | app/src/main/java/com/example/auto_accounting/GPayListenerService.java:169-180 | `trimMerchant` introduces no digit |
| Merchants.HintCandidateKeepsDigitFree | app/src/main/java/com/example/auto_accounting/GPayListenerService.java:156 | a hint candidate in a digit-free text is digit-free |
| Merchants.FirstHintKeepsDigitFree | app/src/main/java/com/example/auto_accounting/GPayListenerService.java:153-159 | the hint loop over a digit-free text returns a digit-free candidate |
| Merchants.LegacyCleanTextIsDigitFree | app/src/main/java/com/example/auto_accounting/GPayListenerService.java:151 | the legacy cleaned text holds no digit |
| Merchants.LegacyFallbackIsDigitFree | app/src/main/java/com/example/auto_accounting/GPayListenerService.java:162-165 | the legacy title fallback holds no digit |
| Merchants.LegacyMerchantHasNoDigit | app/src/main/java/com/example/auto_accounting/GPayListenerService.java:148-167 | the legacy `parseMerchant` always returns a merchant, and it never holds an ASCII digit |
| Listener.ResolveAppLabelOrPkg | main/java/com/example/auto_accounting/notify/GPayListenerService.java:161-170 | never empty: "UnknownApp" without a package name, else the label whenever the lookup returns a non-empty one, else the package name |
| Listener.RecordFromIff | main/java/com/example/auto_accounting/notify/GPayListenerService.java:87-104 | once past the flag checks, a row is stored exactly when the gate passes and an amount is found; the merchant fallback never blocks it |
| Listener.CurrentRecordOfIff | main/java/com/example/auto_accounting/notify/GPayListenerService.java:81-101 | the current revision stores a row from its extras exactly when the content passes the gate and holds an amount |
| Listener.CurrentRecordsIff | main/java/com/example/auto_accounting/notify/GPayListenerService.java:48-109 | a row is stored exactly when tracking is on, the notification is neither ongoing nor a group summary, has extras, passes the gate and holds an amount |
| Listener.CurrentRecordFields | main/java/com/example/auto_accounting/notify/GPayListenerService.java:88-101 | a stored row has the post time and the content's amount; its merchant is `parseMerchant`'s when that is non-empty, else the app label or package name, and never empty |
| Listener.CurrentRecordsOnlyCurrencyAmounts | main/java/com/example/auto_accounting/notify/GPayListenerService.java:87-98 | a stored row's content holds an amount with a currency marker in front or a currency code behind |
| Listener.LegacyRowOfIff | app/src/main/java/com/example/auto_accounting/GPayListenerService.java:80-97 | from the extras the legacy revision appends a row exactly when the gate passes, the content holds a digit and the merchant is non-empty |
| Listener.LegacyRecordsIff | app/src/main/java/com/example/auto_accounting/GPayListenerService.java:60-105 | a row is appended exactly when the package is a Google Pay/Wallet package, the notification has extras, passes the gate, its content holds a digit and the merchant is non-empty |
| Listener.LegacyRowFields | app/src/main/java/com/example/auto_accounting/GPayListenerService.java:88-96 | an appended row has the content's amount and a non-empty, digit-free merchant of at most 60 chars without separators; the text lines play no part |
| Listener.LegacyRowOfIgnoresLines | app/src/main/java/com/example/auto_accounting/GPayListenerService.java:75-80 | the legacy revision never reads the text lines |
| Scenario.TestNotificationIsRecorded | main/java/com/example/auto_accounting/notify/GPayListenerService.java:48-109 | with tracking on, a notification titled "Payment successful" whose text and big text are "You paid $12.34 at Starbucks" is stored with merchant "Starbucks", 1234 cents and its post time, whatever the package and its label |
| Patterns.FindReturnsFirst | main/java/com/example/auto_accounting/notify/GPayListenerService.java:127 | when a start matches and no earlier one does, `find()` returns that start's match |
| Vectors.WholeDollarsAreNoAmount | main/java/com/example/auto_accounting/notify/GPayListenerService.java:28-33 | "Paid $5" has no amount in the current revision |
| Vectors.AudAmount | main/java/com/example/auto_accounting/notify/GPayListenerService.java:124-130 | "AUD 1,234.50" reads as 123450 cents |
| Vectors.DollarsAndCentsAmount | main/java/com/example/auto_accounting/notify/GPayListenerService.java:124-130 | "Paid $12.34" reads as 1234 cents |
| Vectors.LegacyReadsOneDollar | app/src/main/java/com/example/auto_accounting/GPayListenerService.java:131-141 | the legacy revision reads "$1,234" as 100 cents |
| Vectors.RefundPassesCurrentGateOnly | main/java/com/example/auto_accounting/notify/GPayListenerService.java:117-118 | "Refund issued" passes the current gate and fails the legacy one |
| Vectors.ApostropheEndsMerchant | main/java/com/example/auto_accounting/notify/GPayListenerService.java:37 | "Paid at Joe's Cafe" yields the merchant "Joe" |
| Vectors.TrimMerchantIsNotIdempotent | main/java/com/example/auto_accounting/notify/GPayListenerService.java:178 | `trimMerchant` turns "A -- -" into "A --" and that into "A": it is not idempotent |

## Left out

- Android plumbing is not modelled: `onListenerConnected`, `onListenerDisconnected`, `onNotificationRemoved`, logging, and the `try`/`catch` around the body. None of the modelled steps throws (`Amounts.FoundAmountParses`).
- Storage calls are not modelled. `TableWriter.save`, `CsvHelper.appendRow` and `ReportExporter.generateAll` are outside this model. The model returns the row that would be handed to them.
- Calls into code outside this model become parameters. `TrackingManager.isEnabled` is the `enabled` parameter. The package manager's label lookup is the `appLabel` parameter, `None` when it throws.
- Java `null` strings are modelled as "". Every null title, text, big text or line goes through `safeString`, `safeCharSeq` or `TextUtils.isEmpty`, which treat null and "" alike. A null object is modelled as `None`.
- `CharSequence` styling is not modelled: text spans are dropped by `toString()`.
- Decimals.DecimalCents: reads a group exactly as cents instead of through `Double.parseDouble` and `Math.round(amount * 100.0)`. For numbers with at most two fraction digits the results are equal at every realistic magnitude. Floating-point rounding of huge values is not modelled. The legacy revision passes the `Double` itself to `CsvHelper`; the model gives it in cents too.
- Chars.IsLetter: `\p{L}` in the Chinese hint patterns is approximated. The model covers ASCII, Latin-1, Latin Extended-A/B, kana, the CJK ideograph blocks and Hangul syllables. Letters of other scripts are not treated as letters.
- Chars.ToLower: `toLowerCase(Locale.ROOT)` is modelled on ASCII letters only. The only non-ASCII chars that lower to ASCII letters are U+0130 (to `i` followed by U+0307) and U+212A (to `k`). Neither can complete an English keyword, so the gate gives the same answer.
- Merchants.TrimMerchant: the 60-char cut counts Unicode scalar values. Java counts UTF-16 code units, so text outside the Basic Multilingual Plane is cut at a different place.
- Chars.IsSpace: `\s` is desktop Java's ASCII whitespace class. Android compiles these patterns with ICU, whose `\s` also matches Unicode spaces such as U+00A0 and U+3000. So on a device "12.34\u00A0AUD" is a suffixed amount and a 向/给 capture runs on through an ideographic space; in the model neither happens.
- Chars.IsWordChar: `\b` takes its word chars from desktop Java's definition, approximated by digits, `_` and the letters of `Chars.IsLetter`. ICU's `\b` takes them from Unicode `\w`, which also holds marks, non-ASCII decimal digits and the letters of every script, so "at" right after such a char does not start a hint on a device but may in the model. `CASE_INSENSITIVE` is modelled as ASCII case folding. For the hint words this changes nothing: no non-ASCII char folds to a letter of "at", "to" or "with". It does change the capture class `[A-Za-z0-9&\-*.#\s]` of those hints: ICU closes the class under Unicode case folding, so on a device it also takes chars such as U+017F (long s, folding to s) and U+212A (Kelvin sign, folding to k), and "Paid at " followed by U+017F and "tore" yields a merchant there but no hint match in the model.
- Regular expressions are not interpreted in general. Only the fixed patterns of the two revisions are modelled, each by its own matcher.
- The third copy of the repository under `Hackthon2025-Auto-Accoutnig-main/` is not part of this model. Nor are the chart, export and activity classes.
