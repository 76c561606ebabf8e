/**
  `onNotificationPosted`: from a posted notification to the row the listener stores, in
  each revision. The Android objects are reduced to the values the listener reads from
  them; a `null` string is modelled as "" (the listener maps both through `safeString`,
  `safeCharSeq` or `TextUtils.isEmpty` alike), and a `null` object as `None`.
 */
module Listener {
  import opened Chars
  import opened Text
  import opened Config
  import opened Keywords
  import opened Amounts
  import opened Merchants
  import opened Wrappers

  /** The notification extras the listener reads: title, text, big text and text lines. */
  datatype Extras = Extras(title: string, text: string, bigText: string, lines: seq<string>)

  /** A `Notification`: its flag word and its extras bundle. */
  datatype Notification = Notification(flags: bv32, extras: Option<Extras>)

  /** A `StatusBarNotification`: package name, post time and notification. */
  datatype Posted = Posted(packageName: string, postTime: int, notification: Option<Notification>)

  /** What the current revision hands to `TableWriter.save`. */
  datatype Record = Record(when: int, merchant: string, amountMinor: nat)

  /** What the legacy revision hands to `CsvHelper.appendRow`, with the amount in cents. */
  datatype CsvRow = CsvRow(amountCents: nat, merchant: string)

  /** The current revision's `linesJoin`: the non-empty text lines separated by " | ". */
  function LinesJoin(lines: seq<string>): string {
    JoinNonBlank(Separator, lines)
  }

  /**
    The text the gate and `parseAmount` look at: title, text, big text and (current
    revision only) the joined lines, non-empty ones separated by " | ".
   */
  function Content(rev: Revision, e: Extras): string {
    JoinNonBlank(Separator, MerchantParts(rev, e.title, e.text, e.bigText, LinesJoin(e.lines)))
  }

  /** The merchant `parseMerchant` finds in the extras. */
  function MerchantOf(rev: Revision, e: Extras): Option<string> {
    ParseMerchant(rev, e.title, e.text, e.bigText, LinesJoin(e.lines))
  }

  /**
    `resolveAppLabelOrPkg(pkg)`: the application label, else the package name, else
    "UnknownApp". `appLabel` is what the package manager answers for `pkg`: `None` when the
    lookup throws.
   */
  function ResolveAppLabelOrPkg(pkg: string, appLabel: Option<string>): (r: string)
    ensures r != []
    ensures pkg == [] ==> r == UnknownApp
    ensures pkg != [] && appLabel.Some? && appLabel.value != [] ==> r == appLabel.value
    ensures pkg != [] && (appLabel.None? || appLabel.value == []) ==> r == pkg
  {
    if pkg == [] then UnknownApp
    else if appLabel.Some? && appLabel.value != [] then appLabel.value
    else pkg
  }

  /** The flag test: ongoing notifications and group summaries are skipped. */
  predicate IsSkippedKind(flags: bv32) {
    (flags & FlagOngoingEvent) != 0 || (flags & FlagGroupSummary) != 0
  }

  /**
    The current revision's `onNotificationPosted`. `enabled` is `TrackingManager.isEnabled`;
    `appLabel` is the package manager's label for the notification's package.
   */
  function OnPostedCurrent(enabled: bool, appLabel: Option<string>, sbn: Option<Posted>): Option<Record> {
    if sbn.None? || !enabled then None
    else
      var p := sbn.value;
      match p.notification
      case None => None
      case Some(n) =>
        if IsSkippedKind(n.flags) then None
        else
          match n.extras
          case None => None
          case Some(e) => CurrentRecordOf(appLabel, p, e)
  }

  /** What the current revision does with the extras of a notification it has not skipped. */
  function CurrentRecordOf(appLabel: Option<string>, p: Posted, e: Extras): Option<Record> {
    var content := Content(Current, e);
    RecordFrom(ContainsPaymentKeyword(Current, Some(content)), ParseAmount(Current, content), MerchantOf(Current, e),
               p, appLabel)
  }

  /**
    The current revision's decision once the gate, `parseAmount` and `parseMerchant` have
    spoken: a row needs the gate and an amount; an empty merchant falls back to the app
    label or package name.
   */
  function RecordFrom(gate: bool, amount: Option<nat>, parsed: Option<string>, p: Posted, appLabel: Option<string>): Option<Record> {
    if !gate then None
    else
      var merchant := if parsed.Some? && parsed.value != [] then parsed.value
                      else ResolveAppLabelOrPkg(p.packageName, appLabel);
      if amount.Some? && merchant != [] then Some(Record(p.postTime, merchant, amount.value))
      else None
  }

  /** The legacy revision's `onNotificationPosted`. */
  function OnPostedLegacy(sbn: Option<Posted>): Option<CsvRow> {
    if sbn.None? then None
    else
      var p := sbn.value;
      if p.packageName == [] || p.packageName !in TargetPackages then None
      else
        match p.notification
        case None => None
        case Some(n) =>
          match n.extras
          case None => None
          case Some(e) => LegacyRowOf(e)
  }

  /** What the legacy revision does with the extras of a Google Pay/Wallet notification. */
  function LegacyRowOf(e: Extras): Option<CsvRow> {
    var content := Content(Legacy, e);
    if !ContainsPaymentKeyword(Legacy, Some(content)) then None
    else
      var amount := ParseAmount(Legacy, content);
      var merchant := MerchantOf(Legacy, e);
      if amount.Some? && merchant.Some? && merchant.value != [] then Some(CsvRow(amount.value, merchant.value))
      else None
  }

  // ---------------------------------------------------------------------------
  // The current revision

  /** The notification reaches parsing: tracking is on and it is a payment-like notification with extras. */
  predicate CurrentPasses(enabled: bool, sbn: Option<Posted>) {
    && enabled && sbn.Some? && sbn.value.notification.Some?
    && !IsSkippedKind(sbn.value.notification.value.flags)
    && sbn.value.notification.value.extras.Some?
    && ContainsPaymentKeyword(Current, Some(Content(Current, sbn.value.notification.value.extras.value)))
  }

  /**
    The current revision stores a row exactly when the notification passes the gates and
    its content holds an amount: the merchant fallback never leaves the merchant empty.
   */
  lemma CurrentRecordsIff(enabled: bool, appLabel: Option<string>, sbn: Option<Posted>)
    ensures OnPostedCurrent(enabled, appLabel, sbn).Some? <==>
      CurrentPasses(enabled, sbn) &&
      ParseAmount(Current, Content(Current, sbn.value.notification.value.extras.value)).Some?
  {
    if enabled && sbn.Some? && sbn.value.notification.Some?
      && !IsSkippedKind(sbn.value.notification.value.flags)
      && sbn.value.notification.value.extras.Some?
    {
      var e := sbn.value.notification.value.extras.value;
      assert OnPostedCurrent(enabled, appLabel, sbn) == CurrentRecordOf(appLabel, sbn.value, e);
      CurrentRecordOfIff(appLabel, sbn.value, e);
    } else {
      assert OnPostedCurrent(enabled, appLabel, sbn) == None;
    }
  }

  lemma CurrentRecordOfIff(appLabel: Option<string>, p: Posted, e: Extras)
    ensures CurrentRecordOf(appLabel, p, e).Some? <==>
      ContainsPaymentKeyword(Current, Some(Content(Current, e))) && ParseAmount(Current, Content(Current, e)).Some?
  {
    var content := Content(Current, e);
    RecordFromIff(ContainsPaymentKeyword(Current, Some(content)), ParseAmount(Current, content), MerchantOf(Current, e),
                  p, appLabel);
  }

  /** The merchant fallback never leaves the merchant empty, so only the gate and the amount decide. */
  lemma RecordFromIff(gate: bool, amount: Option<nat>, parsed: Option<string>, p: Posted, appLabel: Option<string>)
    ensures RecordFrom(gate, amount, parsed, p, appLabel).Some? <==> gate && amount.Some?
  {
  }

  /**
    A stored row carries the post time, the content's amount, and the merchant
    `parseMerchant` found or, when it found none, the app label or package name.
   */
  lemma CurrentRecordFields(enabled: bool, appLabel: Option<string>, sbn: Option<Posted>)
    requires OnPostedCurrent(enabled, appLabel, sbn).Some?
    ensures var r := OnPostedCurrent(enabled, appLabel, sbn).value;
      var p := sbn.value;
      var e := p.notification.value.extras.value;
      && r.when == p.postTime
      && Some(r.amountMinor) == ParseAmount(Current, Content(Current, e))
      && r.merchant != []
      && (MerchantOf(Current, e).Some? && MerchantOf(Current, e).value != [] ==> r.merchant == MerchantOf(Current, e).value)
      && (MerchantOf(Current, e).None? || MerchantOf(Current, e).value == [] ==>
            r.merchant == ResolveAppLabelOrPkg(p.packageName, appLabel))
  {
  }

  /** The current revision only stores amounts written with a currency marker in front or a currency code behind. */
  lemma CurrentRecordsOnlyCurrencyAmounts(enabled: bool, appLabel: Option<string>, sbn: Option<Posted>)
    requires OnPostedCurrent(enabled, appLabel, sbn).Some?
    ensures var c := Content(Current, sbn.value.notification.value.extras.value);
      (exists i: nat :: HasPrefixAmount(c, i)) || (exists i: nat :: HasSuffixAmount(c, i))
  {
    CurrentAmountIffCurrencyContext(Content(Current, sbn.value.notification.value.extras.value));
  }

  // ---------------------------------------------------------------------------
  // The legacy revision

  /** The notification reaches parsing: a Google Pay/Wallet notification with extras that passes the gate. */
  predicate LegacyPasses(sbn: Option<Posted>) {
    && sbn.Some? && sbn.value.packageName in TargetPackages
    && sbn.value.notification.Some? && sbn.value.notification.value.extras.Some?
    && ContainsPaymentKeyword(Legacy, Some(Content(Legacy, sbn.value.notification.value.extras.value)))
  }

  /**
    The legacy revision appends a row exactly when the notification passes its gates, its
    content holds a digit, and the merchant it finds is not empty.
   */
  lemma LegacyRecordsIff(sbn: Option<Posted>)
    ensures OnPostedLegacy(sbn).Some? <==>
      && LegacyPasses(sbn)
      && (var e := sbn.value.notification.value.extras.value;
          && HasDigit(Content(Legacy, e))
          && MerchantOf(Legacy, e) != Some([]))
  {
    if sbn.Some? && sbn.value.packageName in TargetPackages
      && sbn.value.notification.Some? && sbn.value.notification.value.extras.Some?
    {
      var e := sbn.value.notification.value.extras.value;
      assert sbn.value.packageName != [];
      assert OnPostedLegacy(sbn) == LegacyRowOf(e);
      LegacyRowOfIff(e);
    } else {
      assert OnPostedLegacy(sbn) == None;
    }
  }

  lemma LegacyRowOfIff(e: Extras)
    ensures LegacyRowOf(e).Some? <==>
      && ContainsPaymentKeyword(Legacy, Some(Content(Legacy, e)))
      && HasDigit(Content(Legacy, e))
      && MerchantOf(Legacy, e) != Some([])
  {
    var content := Content(Legacy, e);
    LegacyAmountIffDigit(content);
    LegacyMerchantHasNoDigit(e.title, e.text, e.bigText);
    assert MerchantOf(Legacy, e) == ParseMerchant(Legacy, e.title, e.text, e.bigText, []);
  }

  /**
    A legacy row carries the content's amount and a merchant of at most 60 chars with no
    digit and no `|`, `•` or `…`; the text lines play no part.
   */
  lemma LegacyRowFields(sbn: Option<Posted>)
    requires OnPostedLegacy(sbn).Some?
    ensures var r := OnPostedLegacy(sbn).value;
      var e := sbn.value.notification.value.extras.value;
      && Some(r.amountCents) == ParseAmount(Legacy, Content(Legacy, e))
      && r.merchant != [] && IsBoundedName(r.merchant) && DigitFree(r.merchant)
      && OnPostedLegacy(sbn) == OnPostedLegacy(Some(sbn.value.(notification := Some(sbn.value.notification.value.(extras := Some(e.(lines := [])))))))
  {
    var e := sbn.value.notification.value.extras.value;
    assert sbn.value.packageName != [];
    assert OnPostedLegacy(sbn) == LegacyRowOf(e);
    var sbn' := Some(sbn.value.(notification := Some(sbn.value.notification.value.(extras := Some(e.(lines := []))))));
    assert OnPostedLegacy(sbn') == LegacyRowOf(e.(lines := []));
    LegacyRowOfIgnoresLines(e);
    LegacyMerchantHasNoDigit(e.title, e.text, e.bigText);
    assert MerchantOf(Legacy, e) == ParseMerchant(Legacy, e.title, e.text, e.bigText, []);
    ParseMerchantIsBounded(Legacy, e.title, e.text, e.bigText, LinesJoin(e.lines));
  }

  lemma LegacyRowOfIgnoresLines(e: Extras)
    ensures LegacyRowOf(e) == LegacyRowOf(e.(lines := []))
  {
    assert Content(Legacy, e) == Content(Legacy, e.(lines := []));
    assert MerchantOf(Legacy, e) == MerchantOf(Legacy, e.(lines := []));
  }
}
