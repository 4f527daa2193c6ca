/** The part of Python's object model the validators rely on: the types a
    parameter value can have, `==` across them, `in` on a tuple, and the
    `isinstance` tests. */
module Python {

  /** A parameter value: `None`, a `str`, an `int`, a `bool` or a `float`. */
  datatype Value = None | Str(s: string) | Int(i: int) | Bool(b: bool) | Float(f: real)

  /** `bool`, `int` and `float` values compare as numbers. */
  predicate IsNumber(v: Value) {
    v.Int? || v.Bool? || v.Float?
  }

  /** The number a numeric value stands for; `True` is 1 and `False` is 0. */
  function NumericValue(v: Value): real
    requires IsNumber(v)
  {
    match v
    case Int(i) => i as real
    case Bool(b) => if b then 1.0 else 0.0
    case Float(f) => f
  }

  /** `a == b`: numbers by value whatever their type, strings by content,
      `None` only to itself, and no string equal to a number. */
  predicate Equals(a: Value, b: Value) {
    if IsNumber(a) && IsNumber(b) then NumericValue(a) == NumericValue(b)
    else if a.Str? && b.Str? then a.s == b.s
    else a.None? && b.None?
  }

  /** `v in (t[0], t[1], ...)`: some element of the tuple equals `v`. */
  predicate In(v: Value, t: seq<Value>) {
    exists i :: 0 <= i < |t| && Equals(v, t[i])
  }

  /** `isinstance(v, int)`: `bool` is a subclass of `int`. */
  predicate IsInstanceInt(v: Value) {
    v.Int? || v.Bool?
  }

  /** `isinstance(v, (int, float))`. */
  predicate IsInstanceIntOrFloat(v: Value) {
    v.Int? || v.Bool? || v.Float?
  }

  /** `0 <= v` for a number. */
  predicate NonNegative(v: Value)
    requires IsNumber(v)
  {
    0.0 <= NumericValue(v)
  }

  /** `==` on these values is an equivalence relation. */
  lemma EqualsIsEquivalence(a: Value, b: Value, c: Value)
    ensures Equals(a, a)
    ensures Equals(a, b) <==> Equals(b, a)
    ensures Equals(a, b) && Equals(b, c) ==> Equals(a, c)
  {
  }

  /** Equality with a string holds for that same string and for nothing else. */
  lemma {:induction false} EqualsString(v: Value, s: string)
    ensures Equals(v, Str(s)) <==> v == Str(s)
  {
  }

  /** Membership in a tuple of strings is membership of a string value. */
  lemma InStrings(v: Value, t: seq<Value>)
    requires forall i :: 0 <= i < |t| ==> t[i].Str?
    ensures In(v, t) <==> v.Str? && v in t
  {
    if v.Str? && v in t {
      var i :| 0 <= i < |t| && t[i] == v;
      assert Equals(v, t[i]);
    }
  }
}
