/** The flash plans the store hands to the flashing library, and the bookkeeping
    its `reportProgress` callbacks do while the library writes them. */
module Flashing {
  import opened JsBuiltins

  /** Where a single-image update writes the application. */
  const UPDATE_ADDRESS: nat := 0x10000
  /** Where a clean install writes the application, the OTA image and the LittleFS image. */
  const APP_ADDRESS: nat := 0x0
  const OTA_ADDRESS: nat := 0x260000
  const LITTLEFS_ADDRESS: nat := 0x300000
  /** The `flashSize`, `flashMode` and `flashFreq` setting that leaves the chip's value in place. */
  const KEEP := "keep"

  datatype FlashImage = FlashImage(data: seq<bv8>, address: nat)

  /** Which of the two `reportProgress` callbacks a plan carries. */
  datatype ProgressRule = SingleImage | CleanInstall

  /** `FlashOptions` as the store fills them in. */
  datatype FlashOptions = FlashOptions(
    fileArray: seq<FlashImage>,
    flashSize: string,
    eraseAll: bool,
    compress: bool,
    flashMode: string,
    flashFreq: string,
    reportProgress: ProgressRule)

  /** No two images start at the same address, and they are listed bottom up. */
  predicate AddressesAscending(images: seq<FlashImage>) {
    forall i, j :: 0 <= i < j < |images| ==> images[i].address < images[j].address
  }

  /** Size, mode and frequency stay as the chip has them, and data goes compressed. */
  predicate KeepsChipSettings(o: FlashOptions) {
    o.flashSize == KEEP && o.flashMode == KEEP && o.flashFreq == KEEP && o.compress
  }

  /** The plan of `updateEspFlash`: the fetched application alone, over what is
      already on the chip. */
  function UpdatePlan(content: seq<bv8>): (o: FlashOptions)
    ensures |o.fileArray| == 1 && o.fileArray[0].data == content
    ensures o.fileArray[0].address == UPDATE_ADDRESS
    ensures !o.eraseAll && KeepsChipSettings(o) && o.reportProgress == SingleImage
  {
    FlashOptions([FlashImage(content, UPDATE_ADDRESS)], KEEP, false, true, KEEP, KEEP, SingleImage)
  }

  /** The plan of `cleanInstallEspFlash`: erase the chip, then write the three
      fetched images, each at its partition, in argument order. */
  function CleanInstallPlan(app: seq<bv8>, ota: seq<bv8>, littleFs: seq<bv8>): (o: FlashOptions)
    ensures |o.fileArray| == 3 && AddressesAscending(o.fileArray)
    ensures o.fileArray[0].data == app && o.fileArray[1].data == ota && o.fileArray[2].data == littleFs
    ensures o.fileArray[0].address == APP_ADDRESS && o.fileArray[1].address == OTA_ADDRESS
    ensures o.fileArray[2].address == LITTLEFS_ADDRESS
    ensures o.eraseAll && KeepsChipSettings(o) && o.reportProgress == CleanInstall
  {
    FlashOptions(
      [FlashImage(app, APP_ADDRESS), FlashImage(ota, OTA_ADDRESS), FlashImage(littleFs, LITTLEFS_ADDRESS)],
      KEEP, true, true, KEEP, KEEP, CleanInstall)
  }

  /** `Math.round((written / total) * 100)` over exact fractions: the integer
      nearest to 100·written/total, halves rounded up. */
  function Percent(written: nat, total: nat): (r: nat)
    requires total > 0
    ensures 2 * total * r <= 200 * written + total < 2 * total * (r + 1)
    ensures written <= total ==> r <= 100
    ensures written == total ==> r == 100
  {
    var a, b := 200 * written + total, 2 * total;
    var r := a / b;
    QuotientBrackets(a, b);
    assert b * (r + 1) == b * r + b;
    if written <= total then
      assert a < b * 101;
      CancelFactor(b, r, 101);
      if written == total then
        assert b * 100 < a;
        CancelFactor(b, 100, r + 1);
        r
      else r
    else r
  }

  /** The quotient of Euclidean division brackets the dividend. */
  lemma QuotientBrackets(a: nat, b: nat)
    requires b > 0
    ensures b * (a / b) <= a < b * (a / b) + b
  {
    assert a == b * (a / b) + a % b;
  }

  /** A positive factor can be cancelled from a strict inequality. */
  lemma CancelFactor(b: nat, x: nat, y: nat)
    requires b > 0 && b * x < b * y
    ensures x < y
  {
  }

  /** The `percentDone` getter: the percentage in decimal followed by '%'. */
  function PercentLabel(percent: nat): (s: string)
    ensures |s| >= 2 && s[|s| - 1] == '%'
    ensures AllDigits(s[..|s| - 1]) && DecimalValue(s[..|s| - 1]) == percent
    ensures s[0] == '0' ==> s == "0%"
  {
    var digits := NatToString(percent);
    NatToStringRoundTrip(percent);
    var s := digits + "%";
    assert s[..|s| - 1] == digits;
    assert s[0] == digits[0];
    s
  }

  /** One call of a `reportProgress` callback. */
  datatype Report = Report(fileIndex: nat, written: nat, total: nat)

  /** The store fields the callbacks write: `flashPercentDone`, `flashingIndex`, `isFlashing`. */
  datatype FlashProgress = FlashProgress(percentDone: nat, flashingIndex: nat, isFlashing: bool)

  /** The report after which a flash is over: an image written in full, and in a
      clean install an image after the second. */
  predicate Completes(rule: ProgressRule, rep: Report) {
    rep.written == rep.total && (rule.CleanInstall? ==> rep.fileIndex > 1)
  }

  /** What a callback does to the progress fields on one report. */
  function AfterReport(rule: ProgressRule, p: FlashProgress, rep: Report): (q: FlashProgress)
    requires rep.total > 0
    ensures rep.written <= rep.total ==> q.percentDone <= 100
    ensures rep.written == rep.total ==> q.percentDone == 100
    ensures q.isFlashing <==> p.isFlashing && !Completes(rule, rep)
  {
    var percent := Percent(rep.written, rep.total);
    match rule
    case SingleImage =>
      p.(percentDone := percent,
         isFlashing := if rep.written == rep.total then false else p.isFlashing)
    case CleanInstall =>
      p.(flashingIndex := rep.fileIndex, percentDone := percent,
         isFlashing := if rep.written == rep.total && rep.fileIndex > 1 then false else p.isFlashing)
  }

  predicate AllWellFormed(reps: seq<Report>) {
    forall k :: 0 <= k < |reps| ==> reps[k].total > 0
  }

  /** The progress fields after the callback has seen `reps`, in order. */
  function AfterReports(rule: ProgressRule, p: FlashProgress, reps: seq<Report>): FlashProgress
    requires AllWellFormed(reps)
    decreases |reps|
  {
    if reps == [] then p else AfterReports(rule, AfterReport(rule, p, reps[0]), reps[1..])
  }

  /** A flash that is under way stays under way until a completing report, and
      once over it never restarts. */
  lemma {:induction false} FlashingUntilCompletion(rule: ProgressRule, p: FlashProgress, reps: seq<Report>)
    requires AllWellFormed(reps)
    ensures AfterReports(rule, p, reps).isFlashing
            <==> p.isFlashing && forall k :: 0 <= k < |reps| ==> !Completes(rule, reps[k])
    decreases |reps|
  {
    if reps != [] {
      var rest := reps[1..];
      assert AllWellFormed(rest) by {
        forall k | 0 <= k < |rest| ensures rest[k].total > 0 { assert rest[k] == reps[k + 1]; }
      }
      FlashingUntilCompletion(rule, AfterReport(rule, p, reps[0]), rest);
      assert (forall k :: 0 <= k < |reps| ==> !Completes(rule, reps[k]))
        <==> !Completes(rule, reps[0]) && forall k :: 0 <= k < |rest| ==> !Completes(rule, rest[k]) by {
        if forall k :: 0 <= k < |rest| ==> !Completes(rule, rest[k]) {
          forall k | 1 <= k < |reps| ensures !Completes(rule, reps[k]) { assert reps[k] == rest[k - 1]; }
        }
      }
    }
  }

  /** After at least one report the percentage is that of the last report, and a
      clean install's index is the last report's file index (a single-image
      update never moves it). */
  lemma {:induction false} ProgressFollowsLastReport(rule: ProgressRule, p: FlashProgress, reps: seq<Report>)
    requires AllWellFormed(reps) && reps != []
    ensures var q := AfterReports(rule, p, reps);
            var last := reps[|reps| - 1];
            q.percentDone == Percent(last.written, last.total)
            && q.flashingIndex == (if rule.CleanInstall? then last.fileIndex else p.flashingIndex)
    decreases |reps|
  {
    var rest := reps[1..];
    assert AllWellFormed(rest) by {
      forall k | 0 <= k < |rest| ensures rest[k].total > 0 { assert rest[k] == reps[k + 1]; }
    }
    if rest != [] {
      ProgressFollowsLastReport(rule, AfterReport(rule, p, reps[0]), rest);
      assert rest[|rest| - 1] == reps[|reps| - 1];
    }
  }

  /** While no report claims more written than its total, the percentage stays
      within 0..100. */
  lemma PercentStaysInRange(rule: ProgressRule, p: FlashProgress, reps: seq<Report>)
    requires AllWellFormed(reps) && p.percentDone <= 100
    requires forall k :: 0 <= k < |reps| ==> reps[k].written <= reps[k].total
    ensures AfterReports(rule, p, reps).percentDone <= 100
  {
    if reps != [] {
      ProgressFollowsLastReport(rule, p, reps);
    }
  }

  /** A flash whose last report completes it ends at 100 percent and not flashing. */
  lemma FinalReportEndsFlash(rule: ProgressRule, p: FlashProgress, reps: seq<Report>)
    requires AllWellFormed(reps) && reps != [] && Completes(rule, reps[|reps| - 1])
    ensures !AfterReports(rule, p, reps).isFlashing
    ensures AfterReports(rule, p, reps).percentDone == 100
  {
    ProgressFollowsLastReport(rule, p, reps);
    FlashingUntilCompletion(rule, p, reps);
  }
}
