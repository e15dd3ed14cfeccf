/**
 * The parsed JSON values a resource bundle is made of, with the two pieces of
 * JavaScript semantics the locale service leans on: truthiness and `toString`.
 */
module JsonValues {
  import opened Wrappers
  import opened Numerals

  /** A parsed value. Numbers are integers in this model. */
  datatype Json =
    | Str(s: string)
    | Num(n: int)
    | Bool(b: bool)
    | Null
    | Obj(obj: Object)

  /**
   * A plain object: its own property names in `Object.keys` order, and the
   * value of each property.
   */
  datatype Object = Object(keys: seq<string>, vals: map<string, Json>)

  /** `{}` */
  const Empty: Object := Object([], map[])

  predicate Distinct(s: seq<string>) {
    forall i, j :: 0 <= i < j < |s| ==> s[i] != s[j]
  }

  lemma DistinctSnoc(s: seq<string>, x: string)
    ensures Distinct(s + [x]) <==> Distinct(s) && x !in s
  {
    var t := s + [x];
    if Distinct(t) {
      forall i, j | 0 <= i < j < |s| ensures s[i] != s[j] {
        assert t[i] == s[i] && t[j] == s[j];
      }
      forall i | 0 <= i < |s| ensures s[i] != x {
        assert t[i] == s[i] && t[|s|] == x;
      }
    }
  }

  /** The key list names every own property exactly once. */
  ghost predicate WellFormed(o: Object) {
    Distinct(o.keys) && forall k :: k in o.vals <==> k in o.keys
  }

  /** JavaScript truthiness. */
  predicate Truthy(v: Json): (b: bool)
    ensures b <==> v !in {Str(""), Num(0), Bool(false), Null}
  {
    match v
    case Str(s) => s != ""
    case Num(n) => n != 0
    case Bool(b) => b
    case Null => false
    case Obj(_) => true
  }

  /** Truthiness of a value that may be `undefined` (`None`). */
  predicate TruthyOpt(v: Option<Json>) {
    v.Some? && Truthy(v.value)
  }

  /** The text `String(v)` produces. */
  function ToText(v: Json): (t: string)
    ensures v.Str? ==> t == v.s
    ensures Truthy(v) ==> t != ""
  {
    match v
    case Str(s) => s
    case Num(n) => if n < 0 then "-" + Decimal(-n) else Decimal(n)
    case Bool(b) => if b then "true" else "false"
    case Null => "null"
    case Obj(_) => "[object Object]"
  }

}
