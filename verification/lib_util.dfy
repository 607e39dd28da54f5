/**
 * The arithmetic of Assignment_1/src/libutil.c: converting a monotonic clock
 * reading to microseconds, and splitting a microsecond interval into seconds,
 * milliseconds and microseconds.  The clock itself and the printing are left
 * to the caller: the clock reading is a parameter.
 */
module LibUtil {

  const Magnitude: nat := 1000
  const MicrosecInSec: nat := Magnitude * Magnitude

  /** One clock reading is at most a second's worth of nanoseconds past tv_sec. */
  predicate WellFormedTimespec(nsec: nat) {
    nsec < 1_000_000_000
  }

  /**
   * get_time_in_microsec: tv_nsec / 1000 plus tv_sec * 1000000.  For a
   * well-formed reading the whole seconds and the sub-second microseconds
   * can be read back from the result.
   */
  function MicrosecondsOf(sec: nat, nsec: nat): (us: nat)
    ensures WellFormedTimespec(nsec) ==> us / MicrosecInSec == sec
    ensures WellFormedTimespec(nsec) ==> us % MicrosecInSec == nsec / Magnitude
  {
    nsec / 1000 + sec * 1000000
  }

  /** A later (or equal) clock reading never converts to fewer microseconds. */
  lemma MicrosecondsMonotone(sec1: nat, nsec1: nat, sec2: nat, nsec2: nat)
    requires WellFormedTimespec(nsec1) && WellFormedTimespec(nsec2)
    requires sec1 < sec2 || (sec1 == sec2 && nsec1 <= nsec2)
    ensures MicrosecondsOf(sec1, nsec1) <= MicrosecondsOf(sec2, nsec2)
  {
    if sec1 < sec2 {
      calc {
        MicrosecondsOf(sec1, nsec1);
        nsec1 / 1000 + sec1 * 1000000;
      < (sec1 + 1) * 1000000;
      <= { assert sec1 + 1 <= sec2; }
        sec2 * 1000000;
      <= MicrosecondsOf(sec2, nsec2);
      }
    }
  }

  /** What print_time_diff prints, without printing it. */
  datatype Elapsed = Elapsed(seconds: nat, milliseconds: nat, microseconds: nat)

  /**
   * print_time_diff: the caller promises end >= start (the assert); the
   * three printed parts add back up to the interval and the two smaller
   * parts are below one thousand.
   */
  function TimeDiff(start: nat, end: nat): (e: Elapsed)
    requires end >= start
    ensures e.seconds * MicrosecInSec + e.milliseconds * Magnitude + e.microseconds == end - start
    ensures e.milliseconds < Magnitude && e.microseconds < Magnitude
  {
    var diff := end - start;
    Elapsed(diff / MicrosecInSec, (diff % MicrosecInSec) / Magnitude, (diff % MicrosecInSec) % Magnitude)
  }

  /**
   * The decomposition is the only one with both smaller parts below one
   * thousand: print_time_diff prints the canonical form of the interval.
   */
  lemma TimeDiffUnique(start: nat, end: nat, e: Elapsed)
    requires end >= start
    requires e.seconds * MicrosecInSec + e.milliseconds * Magnitude + e.microseconds == end - start
    requires e.milliseconds < Magnitude && e.microseconds < Magnitude
    ensures e == TimeDiff(start, end)
  {
    var low := e.milliseconds * Magnitude + e.microseconds;
    assert low < MicrosecInSec;
  }
}
