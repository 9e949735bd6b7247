/** How the configured memory is divided between cursors, downloads and a scan, in uint64 arithmetic. */
module MemoryBudget {

  const UINT64_MAX: nat := 0xFFFF_FFFF_FFFF_FFFF
  type uint64 = n: nat | n <= 0xFFFF_FFFF_FFFF_FFFF

  const COVER_LIMIT: uint64 := 64 * 1024 * 1024

  function Max(a: uint64, b: uint64): uint64 { if a < b then b else a }
  function Min(a: uint64, b: uint64): uint64 { if a < b then a else b }

  /** An equal share for each of `n`. */
  function Share(a: uint64, n: uint64): uint64
    requires n > 0
  {
    QuotientAtMost(a, n);
    a / n
  }

  lemma QuotientAtMost(a: nat, n: nat)
    requires n > 0
    ensures 0 <= a / n <= a
  {
    QuotientFits(a, n);
    if a / n > a { Scales(a / n, 1, n); }
  }

  /** Unsigned subtraction wraps around. */
  function Minus(a: uint64, b: uint64): uint64 { if a >= b then a - b else UINT64_MAX - b + a + 1 }

  lemma MinusIsModular(a: uint64, b: uint64)
    ensures Minus(a, b) == (a - b) % 0x1_0000_0000_0000_0000
  {
  }

  function Cursor(total: uint64): uint64 { Max(1, total / 16) }

  function DownloadAggregate(total: uint64): uint64 { Max(1, total / 16) }

  function Download(total: uint64, downloads: uint64): uint64
    requires downloads > 0
  {
    Share(DownloadAggregate(total), downloads)
  }

  function Scan(total: uint64): uint64 { Minus(Minus(total, Cursor(total)), DownloadAggregate(total)) }

  /** What the application constructor checks. */
  predicate Accepted(total: uint64, downloads: uint64) {
    total >= 3 && downloads > 0 && Download(total, downloads) > 0
  }

  function InFlight(scan: uint64): uint64 { Max(1, scan / 16) }

  function Manifest(scan: uint64): uint64 { Min(scan / 2, Max(1, scan / 16)) }

  function Planning(scan: uint64): uint64 { Minus(scan / 2, Manifest(scan)) }

  function CoverAggregate(scan: uint64): uint64 { Minus(Minus(scan, scan / 2), InFlight(scan)) }

  function CoverDecode(scan: uint64, workers: uint64): uint64 {
    Min(COVER_LIMIT, Share(CoverAggregate(scan), Max(1, workers)))
  }

  lemma QuotientFits(a: nat, n: nat)
    requires n > 0
    ensures n * (a / n) <= a
  {
    assert a == n * (a / n) + a % n;
  }

  /** Every accepted configuration is divided without wrapping: each share is positive, and the
    * shares of the cursors, of the scan and of all concurrent downloads fit the total. */
  lemma SharesFit(total: uint64, downloads: uint64)
    requires Accepted(total, downloads)
    ensures Cursor(total) > 0 && Scan(total) > 0
    ensures Cursor(total) + Scan(total) + downloads * Download(total, downloads) <= total
  {
    QuotientFits(DownloadAggregate(total), downloads);
    assert Cursor(total) + DownloadAggregate(total) < total;
  }

  /** Within the scan's share, planning, one manifest, the payloads in flight and a cover being
    * decoded on every worker fit together, and nothing wraps. */
  lemma ScanSharesFit(scan: uint64, workers: uint64)
    requires scan > 0
    ensures Manifest(scan) <= scan / 2 && InFlight(scan) <= scan - scan / 2
    ensures Planning(scan) + Manifest(scan) == scan / 2
    ensures Planning(scan) + Manifest(scan) + InFlight(scan) + Max(1, workers) * CoverDecode(scan, workers) <= scan
  {
    var n := Max(1, workers);
    QuotientFits(CoverAggregate(scan), n);
    assert InFlight(scan) <= scan - scan / 2;
    Scales(n, CoverDecode(scan, workers), Share(CoverAggregate(scan), n));
  }

  lemma Scales(n: nat, a: nat, b: nat)
    requires a <= b
    ensures n * a <= n * b
  {
  }

  /** The two levels together, for any accepted configuration. */
  lemma BudgetIsPartitioned(total: uint64, downloads: uint64, workers: uint64)
    requires Accepted(total, downloads)
    ensures var scan := Scan(total);
      Cursor(total) + downloads * Download(total, downloads)
      + Planning(scan) + Manifest(scan) + InFlight(scan) + Max(1, workers) * CoverDecode(scan, workers) <= total
  {
    SharesFit(total, downloads);
    ScanSharesFit(Scan(total), workers);
  }

  /** A total is accepted from three bytes on, with at least one download and no more downloads than there
    * are bytes for them. */
  lemma AcceptedIff(total: uint64, downloads: uint64)
    ensures Accepted(total, downloads) <==> total >= 3 && 1 <= downloads <= if total < 16 then 1 else total / 16
  {
    if downloads > 0 { Divided(DownloadAggregate(total), downloads); AtLeastOne(DownloadAggregate(total), downloads); }
  }

  lemma AtLeastOne(a: nat, n: nat)
    requires n > 0
    ensures a / n > 0 <==> n <= a
  {
    Divided(a, n);
    if a / n > 0 { Scales(n, 1, a / n); }
  }

  /** Cursors and downloads get a sixteenth each, but at least a byte, and the scan all the rest; a
    * download gets as much as an equal division allows. */
  lemma SharesAre(total: uint64, downloads: uint64)
    requires Accepted(total, downloads)
    ensures Cursor(total) == (if total < 16 then 1 else total / 16) && Scan(total) == total - 2 * Cursor(total)
    ensures downloads * Download(total, downloads) <= Cursor(total) < downloads * (Download(total, downloads) + 1)
  {
    Divided(DownloadAggregate(total), downloads);
  }

  /** Half of the scan's share is for planning and one manifest; of the other half the payloads in
    * flight get a sixteenth of the share, but at least a byte, and the covers all the rest, each worker
    * as much as an equal division and the limit of 64 MiB allow. */
  lemma ScanSharesAre(scan: uint64, workers: uint64)
    requires scan > 0
    ensures InFlight(scan) == if scan < 16 then 1 else scan / 16
    ensures Manifest(scan) == if scan < 2 then 0 else InFlight(scan)
    ensures Planning(scan) == scan / 2 - Manifest(scan)
    ensures var covers, n := scan - scan / 2 - InFlight(scan), if workers == 0 then 1 else workers;
      && n * CoverDecode(scan, workers) <= covers && CoverDecode(scan, workers) <= 67108864
      && (CoverDecode(scan, workers) < 67108864 ==> covers < n * (CoverDecode(scan, workers) + 1))
  {
    Divided(CoverAggregate(scan), Max(1, workers));
    Scales(Max(1, workers), CoverDecode(scan, workers), Share(CoverAggregate(scan), Max(1, workers)));
  }

  lemma Divided(a: nat, n: nat)
    requires n > 0
    ensures n * (a / n) <= a < n * (a / n + 1)
  {
    assert a == n * (a / n) + a % n;
  }

  /** The constructor's bound is the least one: below three bytes some share is empty or wraps. */
  lemma LeastTotal(total: uint64)
    ensures total >= 3 <==> 0 < Scan(total) < total
  {
  }
}
