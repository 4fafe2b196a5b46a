/**
 * JSON values as Python's `json` module hands them over, and the few dictionary
 * operations these scripts perform on them: `k in d`, `d.get(k, default)`,
 * `d[k] = v`, truthiness, `x or y`, and `str(x)`.
 *
 * An object keeps its keys in insertion order, as a Python `dict` does.
 */
module Json {

  import PyStr

  datatype Json =
    | JNull
    | JBool(b: bool)
    | JNum(n: int)
    | JStr(s: string)
    | JArr(items: seq<Json>)
    | JObj(fields: seq<(string, Json)>)

  /** A Python dict read from or written to JSON: key/value pairs in insertion order. */
  type Object = seq<(string, Json)>

  /** The keys of an object, in order. */
  function Keys(o: Object): (ks: seq<string>)
    ensures |ks| == |o|
  {
    seq(|o|, i requires 0 <= i < |o| => o[i].0)
  }

  /** `k in d` */
  predicate Has(o: Object, k: string) {
    k in Keys(o)
  }

  /** `d.get(k, default)`: the value stored under `k`, or `default` when `k` is absent. */
  function Get(o: Object, k: string, default: Json): (v: Json)
    ensures !Has(o, k) ==> v == default
  {
    if o == [] then
      assert Keys(o) == [];
      default
    else if o[0].0 == k then
      assert Keys(o)[0] == k;
      o[0].1
    else
      assert Keys(o) == [o[0].0] + Keys(o[1..]);
      Get(o[1..], k, default)
  }

  /** A present key reads back the value of its first pair. */
  lemma {:induction false} GetFound(o: Object, k: string, default: Json)
    requires Has(o, k)
    ensures exists i :: 0 <= i < |o| && o[i] == (k, Get(o, k, default)) && k !in Keys(o[..i])
  {
    if o[0].0 == k {
      assert o[..0] == [];
    } else {
      assert Keys(o) == [o[0].0] + Keys(o[1..]);
      GetFound(o[1..], k, default);
      var i :| 0 <= i < |o[1..]| && o[1..][i] == (k, Get(o[1..], k, default)) && k !in Keys(o[1..][..i]);
      assert o[..i + 1] == [o[0]] + o[1..][..i];
      assert Keys(o[..i + 1]) == [o[0].0] + Keys(o[1..][..i]);
    }
  }

  /** The default of `get` matters only when the key is missing. */
  lemma {:induction false} GetDefaultIrrelevant(o: Object, k: string, d1: Json, d2: Json)
    requires Has(o, k)
    ensures Get(o, k, d1) == Get(o, k, d2)
  {
    if o[0].0 != k {
      assert Keys(o) == [o[0].0] + Keys(o[1..]);
      GetDefaultIrrelevant(o[1..], k, d1, d2);
    }
  }

  /**
   * `v` is what `o.get(k, default)` reads off the data: the value of the first
   * pair with key `k`, or `default` when no pair has that key.
   */
  ghost predicate FieldIs(o: Object, k: string, default: Json, v: Json) {
    if Has(o, k) then exists i :: 0 <= i < |o| && o[i] == (k, v) && k !in Keys(o[..i])
    else v == default
  }

  /** `Get` reads exactly that value. */
  lemma GetIsField(o: Object, k: string, default: Json)
    ensures FieldIs(o, k, default, Get(o, k, default))
  {
    if Has(o, k) {
      GetFound(o, k, default);
    }
  }

  /**
   * `d[k] = v`: an existing key keeps its position and takes the new value;
   * a new key is appended.
   */
  function Set(o: Object, k: string, v: Json): (r: Object)
    ensures Keys(r) == if Has(o, k) then Keys(o) else Keys(o) + [k]
  {
    if o == [] then
      assert Keys(o) == [];
      [(k, v)]
    else if o[0].0 == k then
      assert Keys(o) == [k] + Keys(o[1..]);
      assert Keys([(k, v)] + o[1..]) == [k] + Keys(o[1..]);
      [(k, v)] + o[1..]
    else
      assert Keys(o) == [o[0].0] + Keys(o[1..]);
      var rest := Set(o[1..], k, v);
      assert Keys([o[0]] + rest) == [o[0].0] + Keys(rest);
      [o[0]] + rest
  }

  /** After `d[k] = v`, `d.get(k)` is `v`. */
  lemma {:induction false} GetSetSame(o: Object, k: string, v: Json, d: Json)
    ensures Get(Set(o, k, v), k, d) == v
  {
    if o != [] && o[0].0 != k {
      GetSetSame(o[1..], k, v, d);
    }
  }

  /** `d[k] = v` leaves the value under every other key as it was. */
  lemma {:induction false} GetSetOther(o: Object, k: string, v: Json, k': string, d: Json)
    requires k' != k
    ensures Get(Set(o, k, v), k', d) == Get(o, k', d)
  {
    if o != [] && o[0].0 != k {
      GetSetOther(o[1..], k, v, k', d);
    }
  }

  /** Python truthiness: None, False, 0, "", [] and {} are false. */
  predicate Truthy(j: Json) {
    match j
    case JNull => false
    case JBool(b) => b
    case JNum(n) => n != 0
    case JStr(s) => s != ""
    case JArr(a) => a != []
    case JObj(f) => f != []
  }

  /** `a or b` */
  function Or(a: Json, b: Json): Json {
    if Truthy(a) then a else b
  }

  /** `a or b` is truthy exactly when one of the two is. */
  lemma OrTruthy(a: Json, b: Json)
    ensures Truthy(Or(a, b)) <==> Truthy(a) || Truthy(b)
    ensures !Truthy(b) ==> (Truthy(Or(a, b)) <==> Truthy(a))
  {
  }

  /** Decimal digits of a natural number, most significant first. */
  function Digits(n: nat): (s: string)
    ensures |s| > 0
    ensures forall i :: 0 <= i < |s| ==> '0' <= s[i] <= '9'
    decreases n
  {
    var d := [(n % 10) as char + '0' as char];
    if n < 10 then d else Digits(n / 10) + d
  }

  /** The number a string of decimal digits denotes, most significant first. */
  function DigitsValue(s: string): int
    decreases |s|
  {
    if s == [] then 0 else DigitsValue(s[..|s| - 1]) * 10 + (s[|s| - 1] as int - '0' as int)
  }

  /** The digits of `n` read back as `n`. */
  lemma {:induction false} DigitsDenote(n: nat)
    ensures DigitsValue(Digits(n)) == n
    decreases n
  {
    var s := Digits(n);
    if n >= 10 {
      DigitsDenote(n / 10);
      assert s[..|s| - 1] == Digits(n / 10);
    } else {
      assert s[..|s| - 1] == [];
    }
  }

  /** `str(n)` for an int. */
  function Decimal(n: int): string {
    if n < 0 then "-" + Digits(-n) else Digits(n)
  }

  /**
   * `str(x)`: a string is itself, anything else is its Python `repr`.
   */
  function ToStr(j: Json): string {
    if j.JStr? then j.s else Repr(j)
  }

  /**
   * Python's `repr` of a JSON value. Strings are shown between single quotes;
   * escaping of quotes and control characters inside them is not modelled.
   */
  function Repr(j: Json): string
    decreases j
  {
    match j
    case JNull => "None"
    case JBool(b) => if b then "True" else "False"
    case JNum(n) => Decimal(n)
    case JStr(s) => "'" + s + "'"
    case JArr(items) =>
      "[" + PyStr.Join(seq(|items|, i requires 0 <= i < |items| => Repr(items[i])), ", ") + "]"
    case JObj(fields) =>
      "{" + PyStr.Join(seq(|fields|, i requires 0 <= i < |fields| =>
                               "'" + fields[i].0 + "': " + Repr(fields[i].1)), ", ") + "}"
  }
}
