/** JSON values as the pipeline's Python code sees them after `json.load`,
    together with the few Python operations applied to them: truthiness,
    `key in obj` / `obj[key]`, and the `"marker" in str(value)` test. */
module JsonValues {
  import opened Wrappers
  import Strings

  /** A decoded JSON value. Objects are unordered; numbers are integers. */
  datatype Json =
    | Null
    | Bool(b: bool)
    | Num(n: int)
    | Str(s: string)
    | Arr(items: seq<Json>)
    | Obj(fields: map<string, Json>)

  /** A JSON object seen as a Python dict (captured request records, for one). */
  type Record = map<string, Json>

  /** Python's `bool(value)`. */
  predicate Truthy(j: Json)
  {
    match j
    case Null => false
    case Bool(b) => b
    case Num(n) => n != 0
    case Str(s) => |s| > 0
    case Arr(a) => |a| > 0
    case Obj(m) => |m| > 0
  }

  /** The falsy JSON values are exactly Python's: `None`, `False`, `0`, the
      empty string, the empty list and the empty dict. */
  lemma FalsyValues(j: Json)
    ensures !Truthy(j) <==> j in {Null, Bool(false), Num(0), Str(""), Arr([]), Obj(map[])}
  {
  }

  /** `j[key]` when `j` is an object holding `key`, otherwise nothing. */
  function Member(j: Json, key: string): (r: Option<Json>)
    ensures r.Some? <==> j.Obj? && key in j.fields
    ensures r.Some? ==> r.value == j.fields[key]
  {
    if j.Obj? && key in j.fields then Some(j.fields[key]) else None
  }

  /** `dict(m)` of a text-to-text mapping (headers, query parameters), as JSON. */
  function StrMap(m: map<string, string>): (r: map<string, Json>)
    ensures r.Keys == m.Keys
    ensures forall k :: k in m ==> r[k] == Str(m[k])
  {
    map k | k in m :: Str(m[k])
  }

  /** `marker in str(j)`: the marker occurs inside some object key or string
      value of `j`. The Python text form of numbers, booleans and `None` cannot
      hold a marker made of letters only, and quoting and separators split the
      text between keys and values, so only keys and strings matter. */
  predicate Mentions(j: Json, marker: string)
  {
    match j
    case Str(s) => Strings.Contains(s, marker)
    case Arr(a) => exists i | 0 <= i < |a| :: Mentions(a[i], marker)
    case Obj(m) => exists k | k in m :: Strings.Contains(k, marker) || Mentions(m[k], marker)
    case _ => false
  }

  /** The keys and strings of `j`, at any depth: the parts of `str(j)` that
      can hold a marker. */
  ghost function Texts(j: Json): set<string>
  {
    match j
    case Str(s) => {s}
    case Arr(a) => set i, t | 0 <= i < |a| && t in Texts(a[i]) :: t
    case Obj(m) => m.Keys + set k, t | k in m && t in Texts(m[k]) :: t
    case _ => {}
  }

  /** A value mentions a marker exactly when one of its keys or strings, at any
      depth, contains it. */
  lemma {:induction false} MentionsIffSomeText(j: Json, marker: string)
    ensures Mentions(j, marker) <==> exists t :: t in Texts(j) && Strings.Contains(t, marker)
  {
    match j
    case Arr(a) =>
      forall i | 0 <= i < |a| {
        MentionsIffSomeText(a[i], marker);
      }
      if exists t :: t in Texts(j) && Strings.Contains(t, marker) {
        var t :| t in Texts(j) && Strings.Contains(t, marker);
        var i :| 0 <= i < |a| && t in Texts(a[i]);
        assert Mentions(a[i], marker);
      }
    case Obj(m) =>
      forall k | k in m {
        MentionsIffSomeText(m[k], marker);
      }
      if exists t :: t in Texts(j) && Strings.Contains(t, marker) {
        var t :| t in Texts(j) && Strings.Contains(t, marker);
        if t !in m.Keys {
          var k :| k in m && t in Texts(m[k]);
          assert Mentions(m[k], marker);
        }
      }
    case _ =>
  }

  /** JSON text conversion (`json.loads` / `json.dumps`), supplied from outside:
      `parse` yields `None` for text that is not valid JSON. */
  datatype Codec = Codec(parse: string -> Option<Json>, dump: Json -> string)

  /** Reading back what was written gives the same value. */
  ghost predicate Faithful(c: Codec)
  {
    forall j :: c.parse(c.dump(j)) == Some(j)
  }
}
