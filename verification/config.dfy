/**
  The two revisions of the notification listener and the constants each one uses.
 */
module Config {
  import opened Patterns

  /**
    `Legacy` is the first revision (Google Pay/Wallet packages only, one amount pattern,
    CSV output); `Current` is the later one (any app, prefix/suffix amount patterns,
    database output, refund keywords).
   */
  datatype Revision = Legacy | Current

  /** What `joinNonBlank` puts between parts. */
  const Separator: string := " | "

  /** The packages the legacy revision listens to; every other package is ignored. */
  const TargetPackages: set<string> := {"com.google.android.apps.walletnfcrel", "com.google.android.apps.nbu.paisa.user"}

  /** `trimMerchant` keeps at most this many chars. */
  const MaxMerchantLength: nat := 60

  /** The legacy merchant when neither a hint nor the title gives one. */
  const UnknownMerchant: string := "UnknownMerchant"

  /** The current revision's merchant when the notification has no package name. */
  const UnknownApp: string := "UnknownApp"

  /** The order in which the merchant hints are tried. */
  const HintOrder: seq<Hint> := [At, To, With, Xiang, Gei]

  /** `Notification.FLAG_ONGOING_EVENT` and `Notification.FLAG_GROUP_SUMMARY`. */
  const FlagOngoingEvent: bv32 := 0x2
  const FlagGroupSummary: bv32 := 0x200

  /** The keywords matched against the lower-cased content, in source order. */
  function LowerKeywords(rev: Revision): seq<string> {
    match rev
    case Legacy => ["paid", "payment", "purchase", "purchased"]
    case Current => ["paid", "payment", "purchase", "purchased", "refunded", "refund"]
  }

  /** The keywords matched against the content as it is, in source order. */
  function ExactKeywords(rev: Revision): seq<string> {
    match rev
    case Legacy => ["支付", "付款", "已支付", "已付款"]
    case Current => ["支付", "付款", "扣款", "已支付", "已付款", "退款"]
  }
}
