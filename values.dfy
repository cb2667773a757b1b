/**
 * Cell values of a data frame, the exceptions pandas raises on them, and the
 * two orders the data-preparation code relies on: Python's string order
 * (which the code uses for ISO dates) and the order of sorted groupby keys
 * (numbers before strings, missing values last), which also orders the
 * values within one sorted column.
 */
module Values {

  /** One cell. `Missing` is pandas' NaN / NaT: every comparison with it is false. */
  datatype Value = Missing | Num(x: real) | Text(s: string)

  /** The exceptions the modelled code lets through to its caller. */
  datatype Error =
    | KeyNotFound(key: string)  // KeyError: a column that is not in the frame
    | InvalidValue              // ValueError raised by the code itself, or a mask of the wrong length
    | TypeMismatch              // TypeError: a string compared with or combined with a number
    | PositionOutOfRange        // IndexError from positional (iloc) selection
    | DateParse                 // a date cell pandas cannot turn into a timestamp

  datatype Result<T> = Ok(value: T) | Err(error: Error)

  datatype Option<T> = None | Some(value: T)

  /** How an operation that works on the caller's frame and returns nothing ended. */
  datatype Outcome = Pass | Fail(error: Error)

  predicate Distinct<T(==)>(s: seq<T>) {
    forall i, j :: 0 <= i < j < |s| ==> s[i] != s[j]
  }

  // ---------------------------------------------------------------------
  // Python's string order: lexicographic by code point.
  // ---------------------------------------------------------------------

  predicate StrLess(a: string, b: string) {
    if |a| == 0 then |b| != 0
    else if |b| == 0 then false
    else if a[0] != b[0] then a[0] < b[0]
    else StrLess(a[1..], b[1..])
  }

  predicate StrLe(a: string, b: string) {
    a == b || StrLess(a, b)
  }

  lemma {:induction false} StrLessIrreflexive(a: string)
    ensures !StrLess(a, a)
  {
    if |a| != 0 {
      StrLessIrreflexive(a[1..]);
    }
  }

  lemma {:induction false} StrLessTransitive(a: string, b: string, c: string)
    requires StrLess(a, b) && StrLess(b, c)
    ensures StrLess(a, c)
  {
    if |a| != 0 && a[0] == b[0] && b[0] == c[0] {
      StrLessTransitive(a[1..], b[1..], c[1..]);
    }
  }

  /** Exactly one of `a < b`, `a == b`, `b < a` holds. */
  lemma {:induction false} StrTrichotomy(a: string, b: string)
    ensures StrLess(a, b) || a == b || StrLess(b, a)
    ensures !(StrLess(a, b) && StrLess(b, a))
    ensures !(StrLess(a, b) && a == b)
  {
    if |a| != 0 && |b| != 0 && a[0] == b[0] {
      StrTrichotomy(a[1..], b[1..]);
      if a[1..] == b[1..] {
        assert a == [a[0]] + a[1..] && b == [b[0]] + b[1..];
      }
    }
    if a == b {
      StrLessIrreflexive(a);
    }
  }

  /** In Python `s >= lit` is exactly `not (s < lit)`. */
  lemma StrGeIsNotLess(s: string, lit: string)
    ensures StrLe(lit, s) <==> !StrLess(s, lit)
  {
    StrTrichotomy(s, lit);
  }

  // ---------------------------------------------------------------------
  // The order of sorted `groupby` keys: numbers by value, then strings by
  // Python order, missing last. `sort_values` uses the same order within a
  // column of numbers or of strings; it raises TypeError on a column that
  // mixes the two.
  // ---------------------------------------------------------------------

  predicate ValueLe(a: Value, b: Value) {
    match b
    case Missing => true
    case Num(y) => a.Num? && a.x <= y
    case Text(t) => a.Num? || (a.Text? && StrLe(a.s, t))
  }

  predicate ValueLess(a: Value, b: Value) {
    ValueLe(a, b) && a != b
  }

  lemma ValueLeTotal(a: Value, b: Value)
    ensures ValueLe(a, b) || ValueLe(b, a)
  {
    if a.Text? && b.Text? {
      StrTrichotomy(a.s, b.s);
    }
  }

  lemma ValueLeAntisymmetric(a: Value, b: Value)
    requires ValueLe(a, b) && ValueLe(b, a)
    ensures a == b
  {
    if a.Text? && b.Text? {
      StrTrichotomy(a.s, b.s);
    }
  }

  lemma ValueLeTransitive(a: Value, b: Value, c: Value)
    requires ValueLe(a, b) && ValueLe(b, c)
    ensures ValueLe(a, c)
  {
    if a.Text? && b.Text? && c.Text? && a.s != b.s && b.s != c.s {
      StrLessTransitive(a.s, b.s, c.s);
    }
  }
}
