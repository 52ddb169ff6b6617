/** The verdict of `scan_path`. The scanner itself (`clamscan -r path` run
    through `subprocess.run`) is a collaborator: its outcome is an input. */
module Scan {

  /** What running the scanner gives: its exit code, that the program is
      not installed (`FileNotFoundError`, the one exception `scan_path`
      catches), or any other exception out of `subprocess.run` (a scanner
      that cannot be executed, output that does not decode), which escapes
      `scan_path` to its caller. */
  datatype ScanOutcome = Exited(code: int) | NotInstalled | Raised

  /** `scan_path(path)` returns `True`: the exit code is 0, or the scanner is
      missing (fail-open). */
  predicate IsClean(o: ScanOutcome)
  {
    match o
    case Exited(code) => code == 0
    case NotInstalled => true
    case Raised => false
  }

  /** `scan_path(path)` returns `False`: every exit code but 0 (1: a virus
      found, 2: a scanner error). */
  predicate Rejects(o: ScanOutcome)
  {
    match o
    case Exited(code) => code != 0
    case NotInstalled => false
    case Raised => false
  }

  /** The verdicts of `scan_path`: exit code 0 passes, any other exit code
      rejects, a scanner that is not installed passes, and an escaping
      exception gives no verdict at all; every outcome has exactly one of
      the three results. */
  lemma ScanVerdict(o: ScanOutcome)
    ensures o.Exited? ==> (IsClean(o) <==> o.code == 0) && (Rejects(o) <==> o.code != 0)
    ensures o.NotInstalled? ==> IsClean(o)
    ensures o.Raised? <==> !IsClean(o) && !Rejects(o)
    ensures !(IsClean(o) && Rejects(o))
  {
  }
}
