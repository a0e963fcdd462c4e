/** The JavaScript values a parsed JSON request body can hold, with the parts of
    JavaScript semantics the route handlers rely on: truthiness (`!x`),
    `typeof x === 'object'`, `Object.keys`, `for (k in x)` with `x[k]`, and
    the decimal rendering of a number inside a template string. */
module Json {

  /** A JavaScript value. `Undefined` is a field absent from the body.
      `Obj(keys, fields)`: `keys` are the own enumerable property names in the
      order `for … in` and `Object.keys` visit them; `fields` gives each value. */
  datatype Json =
    | Undefined
    | Null
    | Bool(b: bool)
    | Num(r: real)
    | Str(s: string)
    | Arr(items: seq<Json>)
    | Obj(keys: seq<string>, fields: map<string, Json>)

  /** JavaScript truthiness: `undefined`, `null`, `false`, `0` and `""` are falsy. */
  predicate Truthy(v: Json) {
    match v
    case Undefined => false
    case Null => false
    case Bool(b) => b
    case Num(r) => r != 0.0
    case Str(s) => s != ""
    case Arr(_) => true
    case Obj(_, _) => true
  }

  /** `typeof v === 'object'`: true of `null`, arrays and objects. */
  predicate IsObject(v: Json) {
    v.Null? || v.Arr? || v.Obj?
  }

  /** `!v || typeof v !== 'object'` fails exactly for arrays and objects:
      the truthiness test is what keeps `null` out. */
  lemma TruthyObjectIsContainer(v: Json)
    ensures Truthy(v) && IsObject(v) <==> v.Arr? || v.Obj?
    ensures IsObject(Null) && !Truthy(Null)
  {}

  /** `a || null`: the value itself when truthy, otherwise `null`. */
  function OrNull(v: Json): (r: Json)
    ensures Truthy(v) ==> r == v
    ensures !Truthy(v) ==> r == Null
    ensures r.Null? || Truthy(r)
  {
    if Truthy(v) then v else Null
  }

  /** A property read `o[k]`: `undefined` when the property is absent. */
  function Prop(fields: map<string, Json>, k: string): Json {
    if k in fields then fields[k] else Undefined
  }

  /** The `[k, v[k]]` pairs that `for (const k in v)` visits, in order; an
      array's keys are its indices written in decimal. */
  function Entries(v: Json): (es: seq<(string, Json)>)
    ensures v.Obj? ==> |es| == |v.keys|
    ensures v.Obj? ==> forall i :: 0 <= i < |es| ==> es[i] == (v.keys[i], Prop(v.fields, v.keys[i]))
    ensures v.Arr? ==> |es| == |v.items|
    ensures v.Arr? ==> forall i :: 0 <= i < |es| ==> es[i] == (NatToString(i), v.items[i])
    ensures !v.Obj? && !v.Arr? ==> es == []
  {
    match v
    case Obj(keys, fields) => seq(|keys|, i requires 0 <= i < |keys| => (keys[i], Prop(fields, keys[i])))
    case Arr(items) => seq(|items|, i requires 0 <= i < |items| => (NatToString(i), items[i]))
    case _ => []
  }

  /** What a parsed JSON object looks like: its keys listed once each, and
      exactly the keys it has. Values of other shapes are unconstrained. */
  predicate WellFormedObject(v: Json) {
    v.Obj? ==>
      && (forall i, j :: 0 <= i < j < |v.keys| ==> v.keys[i] != v.keys[j])
      && (forall k :: k in v.fields ==> k in v.keys)
      && (forall k :: k in v.keys ==> k in v.fields)
  }

  /** `for (const k in v)` over a parsed object or an array visits every key
      exactly once, each with its own value. */
  lemma EntriesVisitEachKeyOnce(v: Json)
    requires WellFormedObject(v)
    ensures forall i, j :: 0 <= i < j < |Entries(v)| ==> Entries(v)[i].0 != Entries(v)[j].0
    ensures v.Obj? ==> forall k :: k in v.fields <==> exists i :: 0 <= i < |Entries(v)| && Entries(v)[i].0 == k
    ensures v.Obj? ==> forall i :: 0 <= i < |Entries(v)| ==> Entries(v)[i].1 == v.fields[Entries(v)[i].0]
    ensures v.Arr? ==> forall i :: 0 <= i < |v.items| ==> Entries(v)[i] == (NatToString(i), v.items[i])
  {
    var es := Entries(v);
    if v.Arr? {
      forall i, j | 0 <= i < j < |es| ensures es[i].0 != es[j].0 {
        if es[i].0 == es[j].0 {
          NatToStringInjective(i, j);
        }
      }
    }
    if v.Obj? {
      forall k | k in v.fields ensures exists i :: 0 <= i < |es| && es[i].0 == k {
        var i :| 0 <= i < |v.keys| && v.keys[i] == k;
        assert es[i].0 == k;
      }
    }
  }

  /** The character of one decimal digit. */
  function Digit(d: nat): (c: char)
    requires d < 10
    ensures '0' <= c <= '9'
  {
    (48 + d) as char
  }

  /** How `${n}` writes a non-negative integer: decimal, no leading zeros. */
  function NatToString(n: nat): (s: string)
    ensures 1 <= |s|
    ensures forall i :: 0 <= i < |s| ==> '0' <= s[i] <= '9'
    ensures n < 10 <==> |s| == 1
    decreases n
  {
    if n < 10 then [Digit(n)] else NatToString(n / 10) + [Digit(n % 10)]
  }

  /** Distinct numbers are written differently. */
  lemma {:induction false} NatToStringInjective(m: nat, n: nat)
    requires NatToString(m) == NatToString(n)
    ensures m == n
    decreases m
  {
    var sm, sn := NatToString(m), NatToString(n);
    if m >= 10 && n >= 10 {
      assert sm[|sm| - 1] == Digit(m % 10) && sn[|sn| - 1] == Digit(n % 10);
      assert sm[..|sm| - 1] == NatToString(m / 10);
      assert sn[..|sn| - 1] == NatToString(n / 10);
      NatToStringInjective(m / 10, n / 10);
    } else if m < 10 && n < 10 {
      assert sm[0] == Digit(m) && sn[0] == Digit(n);
    }
  }
}
