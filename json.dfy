/** JSON values as Python's `json` module hands them to the pipeline, and the
    codec (`json.loads`, `json.dumps`) as a pair of functions supplied from
    outside: the model does not implement RFC 8259 text, it only relies on the
    round trip `loads(dumps(v)) == v` for the values `loads` can return. */
module Json {

  import opened Wrappers
  import opened Text

  datatype Json =
    | JNull
    | JBool(b: bool)
    | JNumber(literal: string)
    | JString(s: string)
    | JArray(items: seq<Json>)
    | JObject(members: seq<(string, Json)>)

  /** `json.loads` (None when it raises) and `json.dumps`. */
  datatype Codec = Codec(parse: string -> Option<Json>, dump: Json -> string)

  /** The values `json.loads` can return: an object's names are distinct (a decoded dict
      keeps one entry per name), a number's literal is the one the codec reads it back as,
      and the same holds all the way down. */
  ghost predicate Canonical(c: Codec, v: Json)
    decreases v
  {
    match v
    case JNumber(literal) => c.parse(literal) == Some(v)
    case JArray(items) => forall i | 0 <= i < |items| :: Canonical(c, items[i])
    case JObject(ms) =>
      && (forall i, j | 0 <= i < j < |ms| :: ms[i].0 != ms[j].0)
      && (forall i | 0 <= i < |ms| :: Canonical(c, ms[i].1))
    case _ => true
  }

  /** What the pipeline needs of the codec: whatever `loads` returns is canonical, every
      canonical value dumps to text that parses back to itself, `json.dumps([])` is `"[]"`,
      dumped text is never empty and never starts or ends with whitespace, and a dumped
      list starts with `[` and ends with `]`. */
  ghost predicate Lawful(c: Codec) {
    && (forall t | c.parse(t).Some? :: Canonical(c, c.parse(t).value))
    && (forall v | Canonical(c, v) :: c.parse(c.dump(v)) == Some(v))
    && c.dump(JArray([])) == "[]"
    && (forall v :: c.dump(v) != [] && !IsSpace(c.dump(v)[0]) && !IsSpace(c.dump(v)[|c.dump(v)| - 1]))
    && (forall xs :: |c.dump(JArray(xs))| >= 2 && c.dump(JArray(xs))[0] == '['
                     && c.dump(JArray(xs))[|c.dump(JArray(xs))| - 1] == ']')
  }

  /** `key in obj` for a decoded object. */
  predicate HasKey(ms: seq<(string, Json)>, key: string) {
    exists i | 0 <= i < |ms| :: ms[i].0 == key
  }

  /** `obj[key]`: a decoded object keeps the last value given for a name. */
  function Get(ms: seq<(string, Json)>, key: string): (r: Option<Json>)
    ensures r.Some? <==> HasKey(ms, key)
    ensures r.Some? ==> exists i | 0 <= i < |ms| :: ms[i] == (key, r.value)
  {
    if ms == [] then None
    else if ms[|ms| - 1].0 == key then Some(ms[|ms| - 1].1)
    else
      var r := Get(ms[..|ms| - 1], key);
      assert HasKey(ms, key) <==> HasKey(ms[..|ms| - 1], key) by {
        if HasKey(ms[..|ms| - 1], key) {
          var i :| 0 <= i < |ms| - 1 && ms[..|ms| - 1][i].0 == key;
          assert ms[i].0 == key;
        }
      }
      if r.Some? then
        var i :| 0 <= i < |ms| - 1 && ms[..|ms| - 1][i] == (key, r.value);
        assert ms[i] == (key, r.value);
        r
      else r
  }

  /** The keys of a decoded object, each once, in order of first appearance. */
  function Names(ms: seq<(string, Json)>): (r: seq<string>)
    ensures forall k :: k in r <==> HasKey(ms, k)
  {
    if ms == [] then []
    else
      var r := Names(ms[..|ms| - 1]);
      forall k ensures HasKey(ms, k) <==> HasKey(ms[..|ms| - 1], k) || ms[|ms| - 1].0 == k {
        if HasKey(ms, k) {
          var i :| 0 <= i < |ms| && ms[i].0 == k;
          if i < |ms| - 1 { assert ms[..|ms| - 1][i].0 == k; }
        }
        if HasKey(ms[..|ms| - 1], k) {
          var i :| 0 <= i < |ms| - 1 && ms[..|ms| - 1][i].0 == k;
          assert ms[i].0 == k;
        }
      }
      if ms[|ms| - 1].0 in r then r else r + [ms[|ms| - 1].0]
  }

  /** What `list.extend(v)` appends: a list's items, an object's keys, a string's
      characters; None where iterating `v` raises TypeError (numbers, booleans, null). */
  function Elements(v: Json): (r: Option<seq<Json>>)
    ensures r.None? <==> (v.JNull? || v.JBool? || v.JNumber?)
    ensures v.JArray? ==> r == Some(v.items)
  {
    match v
    case JArray(items) => Some(items)
    case JObject(ms) =>
      var names := Names(ms);
      Some(seq(|names|, i requires 0 <= i < |names| => JString(names[i])))
    case JString(s) => Some(seq(|s|, i requires 0 <= i < |s| => JString([s[i]])))
    case _ => None
  }
}
