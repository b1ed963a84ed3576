/** The timeval macros of `evutil.h`. */
module Time {
  datatype Timeval = Timeval(sec: int, usec: int)

  const MILLION := 1_000_000

  function Total(t: Timeval): int {
    t.sec * 1_000_000 + t.usec
  }

  predicate Normal(t: Timeval) {
    0 <= t.usec < 1_000_000
  }

  /** evutil_timercmp with `>`. */
  predicate Greater(t: Timeval, u: Timeval) {
    if t.sec == u.sec then t.usec > u.usec else t.sec > u.sec
  }

  predicate Le(t: Timeval, u: Timeval) {
    !Greater(t, u)
  }

  /** On normalised times the field-by-field comparison is the comparison of the instants. */
  lemma GreaterIsLater(t: Timeval, u: Timeval)
    requires Normal(t) && Normal(u)
    ensures Greater(t, u) <==> Total(t) > Total(u)
  {
    if t.sec > u.sec {
      assert t.sec >= u.sec + 1;
    } else if t.sec < u.sec {
      assert u.sec >= t.sec + 1;
    }
  }

  /** Normalised times are determined by the instant they denote. */
  lemma TotalInjective(t: Timeval, u: Timeval)
    requires Normal(t) && Normal(u) && Total(t) == Total(u)
    ensures t == u
  {
    GreaterIsLater(t, u);
    GreaterIsLater(u, t);
  }

  /** The time that is `u` before `t`. */
  function Minus(t: Timeval, u: Timeval): (v: Timeval)
    ensures Total(v) == Total(t) - Total(u)
    ensures Normal(t) && Normal(u) ==> Normal(v)
  {
    if t.usec < u.usec then Timeval(t.sec - u.sec - 1, t.usec - u.usec + MILLION)
    else Timeval(t.sec - u.sec, t.usec - u.usec)
  }

  /** The time that is `u` after `t`. */
  function Plus(t: Timeval, u: Timeval): (v: Timeval)
    ensures Total(v) == Total(t) + Total(u)
    ensures Normal(t) && Normal(u) ==> Normal(v)
  {
    if t.usec + u.usec >= MILLION then Timeval(t.sec + u.sec + 1, t.usec + u.usec - MILLION)
    else Timeval(t.sec + u.sec, t.usec + u.usec)
  }

  /** On normalised times adding and subtracting the same time undo each other. */
  lemma ThereAndBack(t: Timeval, u: Timeval)
    requires Normal(t) && Normal(u)
    ensures Minus(Plus(t, u), u) == t && Plus(Minus(t, u), u) == t
  {
    TotalInjective(Minus(Plus(t, u), u), t);
    TotalInjective(Plus(Minus(t, u), u), t);
  }

  /** evutil_timeradd. */
  method Add(t: Timeval, u: Timeval) returns (v: Timeval)
    ensures v == Plus(t, u) && Total(v) == Total(t) + Total(u)
    ensures Normal(t) && Normal(u) ==> Normal(v)
  {
    v := Timeval(t.sec + u.sec, t.usec + u.usec);
    if v.usec >= MILLION {
      v := v.(sec := v.sec + 1);
      v := v.(usec := v.usec - MILLION);
    }
  }

  /** evutil_timersub. */
  method Sub(t: Timeval, u: Timeval) returns (v: Timeval)
    ensures v == Minus(t, u) && Total(v) == Total(t) - Total(u)
    ensures Normal(t) && Normal(u) ==> Normal(v)
  {
    v := Timeval(t.sec - u.sec, t.usec - u.usec);
    if v.usec < 0 {
      v := v.(sec := v.sec - 1);
      v := v.(usec := v.usec + MILLION);
    }
  }
}
