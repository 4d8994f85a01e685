/**
 * A proportional-integral-derivative controller. Each call to `Calculate` takes the
 * error between the reference and the measurement, optionally wraps it across a
 * continuous (circular) input range, adds it to the running total and compares it with
 * the previous error.
 */
module Pid {
  /** Sum of a sequence of errors, the latest last. */
  function Sum(s: seq<real>): real
  {
    if s == [] then 0.0 else Sum(s[..|s| - 1]) + s[|s| - 1]
  }

  function Abs(v: real): real
  {
    if v < 0.0 then -v else v
  }

  /**
   * The error after the continuous-range wrap: when it is more than half the width of
   * the range away from zero, it is moved one width toward zero.
   */
  function WrappedError(error: real, continuous: bool, minValue: real, maxValue: real): (e: real)
    ensures e == error || e == error - (maxValue - minValue) || e == error + (maxValue - minValue)
    ensures !continuous ==> e == error
  {
    if continuous && Abs(error) > (maxValue - minValue) / 2.0 then
      if error > 0.0 then error - maxValue + minValue else error + maxValue - minValue
    else
      error
  }

  /** An error of at most one width of the range is wrapped to at most half a width. */
  lemma WrappedErrorWithinHalfRange(error: real, minValue: real, maxValue: real)
    requires Abs(error) <= maxValue - minValue
    ensures Abs(WrappedError(error, true, minValue, maxValue)) <= (maxValue - minValue) / 2.0
  {
  }

  /** An error within half a width is left alone, so wrapping twice is wrapping once. */
  lemma WrappedErrorIdempotent(error: real, minValue: real, maxValue: real)
    requires Abs(error) <= maxValue - minValue
    ensures Abs(error) <= (maxValue - minValue) / 2.0 ==> WrappedError(error, true, minValue, maxValue) == error
    ensures var e := WrappedError(error, true, minValue, maxValue);
      WrappedError(e, true, minValue, maxValue) == e
  {
    WrappedErrorWithinHalfRange(error, minValue, maxValue);
  }

  /** The controller output for a wrapped error, the new total and the previous error. */
  function Output(kP: real, kI: real, kD: real, error: real, total: real, previous: real): (output: real)
    ensures kP == 0.0 && kI == 0.0 && kD == 0.0 ==> output == 0.0
    ensures kI == 0.0 && kD == 0.0 ==> output == kP * error
  {
    kP * error + kI * total + kD * (error - previous)
  }

  /** A constant error held for n steps accumulates n times over: the integral term winds up. */
  lemma {:induction false} ConstantErrorWindsUp(n: nat, error: real)
    ensures Sum(seq(n, _ => error)) == n as real * error
  {
    if n > 0 {
      assert seq(n, _ => error)[..n - 1] == seq(n - 1, _ => error);
      ConstantErrorWindsUp(n - 1, error);
    }
  }

  class PIDController {
    var kP: real
    var kI: real
    var kD: real
    var totalError: real
    var previousError: real
    var continuous: bool
    var minValue: real
    var maxValue: real

    /** The wrapped errors seen since construction or the last reset. */
    ghost var errors: seq<real>

    /** The running total is the sum of the errors seen, the previous error the latest of them. */
    ghost predicate Valid()
      reads this
    {
      && totalError == Sum(errors)
      && previousError == (if errors == [] then 0.0 else errors[|errors| - 1])
    }

    /** A fresh controller with the given gains, no history, and a non-continuous input. */
    constructor (kP: real, kI: real, kD: real)
      ensures Valid() && errors == []
      ensures this.kP == kP && this.kI == kI && this.kD == kD
      ensures !continuous && minValue == 0.0 && maxValue == 0.0
    {
      this.kP := kP;
      this.kI := kI;
      this.kD := kD;
      totalError := 0.0;
      previousError := 0.0;
      continuous := false;
      minValue := 0.0;
      maxValue := 0.0;
      errors := [];
    }

    /** Replaces the gains; the history and the range are kept. */
    method SetPID(kP: real, kI: real, kD: real)
      modifies this`kP, this`kI, this`kD
      ensures this.kP == kP && this.kI == kI && this.kD == kD
    {
      this.kP := kP;
      this.kI := kI;
      this.kD := kD;
    }

    /** Makes the input continuous over the given range; the history and the gains are kept. */
    method SetContinuous(minValue: real, maxValue: real)
      modifies this`continuous, this`minValue, this`maxValue
      ensures continuous && this.minValue == minValue && this.maxValue == maxValue
    {
      continuous := true;
      this.minValue := minValue;
      this.maxValue := maxValue;
    }

    /** Forgets the history: the total and the previous error go back to zero; gains and range stay. */
    method Reset()
      modifies this`totalError, this`previousError, this`errors
      ensures Valid() && errors == []
      ensures totalError == 0.0 && previousError == 0.0
    {
      totalError := 0.0;
      previousError := 0.0;
      errors := [];
    }

    /**
     * One control step: the wrapped error of reference - measurement joins the history,
     * the total grows by it, it becomes the previous error, and the output weighs it,
     * the new total and its change from the old previous error by the three gains.
     */
    method Calculate(measurement: real, reference: real) returns (output: real)
      requires Valid()
      modifies this`totalError, this`previousError, this`errors
      ensures Valid()
      ensures var e := WrappedError(reference - measurement, continuous, minValue, maxValue);
        && errors == old(errors) + [e]
        && totalError == old(totalError) + e
        && previousError == e
        && output == Output(kP, kI, kD, e, totalError, old(previousError))
    {
      var error := reference - measurement;
      if continuous {
        if Abs(error) > (maxValue - minValue) / 2.0 {
          if error > 0.0 {
            error := error - maxValue + minValue;
          } else {
            error := error + maxValue - minValue;
          }
        }
      }
      assert error == WrappedError(reference - measurement, continuous, minValue, maxValue);
      totalError := totalError + error;
      output := Output(kP, kI, kD, error, totalError, previousError);
      previousError := error;
      errors := errors + [error];
      assert errors[..|errors| - 1] == old(errors);
    }
  }
}
