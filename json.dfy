/**
 * JSON values and the decoding rules of Go's encoding/json that the core depends on.
 *
 * The text grammar itself is not modelled: a `Codec` carries a parser and a
 * serialiser, and `Lawful` states what every JSON implementation guarantees of
 * them (reparsing serialised text gives the value back, texts are never empty, an
 * object's text starts with '{').
 *
 * Decoding into a Go struct follows json.Unmarshal's lax rules: a field missing
 * from the object keeps its zero value, members that name no field are ignored,
 * `null` leaves a field at its zero value (a nil pointer, "", false, 0, an empty
 * slice), keys match field names without regard to ASCII case, and a value of the
 * wrong type makes the whole decode fail.
 */
module Json {
  import opened Wrappers
  import Text

  datatype Json =
    | JNull
    | JBool(b: bool)
    /** a number literal written as an integer */
    | JInt(i: int)
    /** a number literal with a fraction or an exponent: mantissa * 10^exponent */
    | JFloat(mantissa: int, exponent: int)
    | JString(s: string)
    | JArray(items: seq<Json>)
    | JObject(members: seq<(string, Json)>)

  datatype Codec = Codec(parse: string -> Option<Json>, serialize: Json -> string)

  /** The white space the JSON grammar allows between tokens. */
  predicate JsonSpace(c: char) {
    c == ' ' || c == '\t' || c == '\n' || c == '\r'
  }

  function SkipJsonSpace(s: string): (r: string)
    ensures r == [] || !JsonSpace(r[0])
  {
    if s != [] && JsonSpace(s[0]) then SkipJsonSpace(s[1..]) else s
  }

  predicate StartsObject(s: string) {
    var t := SkipJsonSpace(s);
    t != [] && t[0] == '{'
  }

  ghost predicate Lawful(c: Codec) {
    && (forall j :: c.parse(c.serialize(j)) == Some(j))
    && (forall j :: c.serialize(j) != "")
    && (forall s :: c.parse(s).Some? && c.parse(s).value.JObject? ==> StartsObject(s))
  }

  function LowerAscii(c: char): char {
    if 'A' <= c <= 'Z' then (c as int + 32) as char else c
  }

  /** json.Unmarshal's key match: equal up to ASCII case. */
  predicate KeyMatches(key: string, name: string) {
    |key| == |name| && forall i | 0 <= i < |key| :: LowerAscii(key[i]) == LowerAscii(name[i])
  }

  /** The value of the last member whose key matches `name`, if any. */
  function Field(members: seq<(string, Json)>, name: string): Option<Json> {
    if members == [] then None
    else if KeyMatches(members[|members| - 1].0, name) then Some(members[|members| - 1].1)
    else Field(members[..|members| - 1], name)
  }

  /** Field finds a member exactly when some key matches, and then the last one. */
  lemma {:induction false} FieldIsLastMatch(members: seq<(string, Json)>, name: string)
    ensures var r := Field(members, name);
      && (r.None? <==> forall i | 0 <= i < |members| :: !KeyMatches(members[i].0, name))
      && (r.Some? ==> exists i | 0 <= i < |members| ::
           (&& members[i].1 == r.value
            && KeyMatches(members[i].0, name)
            && forall k | i < k < |members| :: !KeyMatches(members[k].0, name)))
  {
    if members != [] {
      var n := |members| - 1;
      var init := members[..n];
      if KeyMatches(members[n].0, name) {
        assert Field(members, name) == Some(members[n].1);
      } else {
        assert Field(members, name) == Field(init, name);
        FieldIsLastMatch(init, name);
        assert forall i | 0 <= i < n :: members[i] == init[i];
        if Field(init, name).Some? {
          var i :| 0 <= i < |init| && init[i].1 == Field(init, name).value && KeyMatches(init[i].0, name)
            && forall k | i < k < |init| :: !KeyMatches(init[k].0, name);
          assert members[i] == init[i];
        }
      }
    }
  }

  /** A key that only one member matches selects that member's value. */
  lemma FieldAt(members: seq<(string, Json)>, i: int, name: string)
    requires 0 <= i < |members| && KeyMatches(members[i].0, name)
    requires forall k | 0 <= k < |members| && k != i :: !KeyMatches(members[k].0, name)
    ensures Field(members, name) == Some(members[i].1)
  {
    FieldIsLastMatch(members, name);
  }

  /** No member matches: the field is absent. */
  lemma FieldAbsent(members: seq<(string, Json)>, name: string)
    requires forall k | 0 <= k < |members| :: !KeyMatches(members[k].0, name)
    ensures Field(members, name) == None
  {
    FieldIsLastMatch(members, name);
  }

  /** The members a struct is decoded from: `null` counts as an empty object. */
  function Members(j: Json): Option<seq<(string, Json)>> {
    match j
    case JNull => Some([])
    case JObject(ms) => Some(ms)
    case _ => None
  }

  /**
   * A `string` field: an absent or `null` field leaves the empty string, and otherwise
   * only a JSON string decodes, to its text.
   */
  function DecodeString(v: Option<Json>): (r: Option<string>)
    ensures v.None? || v == Some(JNull) ==> r == Some("")
    ensures r.Some? && v.Some? && v != Some(JNull) ==> v.value == JString(r.value)
  {
    match v
    case None => Some("")
    case Some(JNull) => Some("")
    case Some(JString(s)) => Some(s)
    case Some(_) => None
  }

  /** A `bool` field: absent or `null` leaves false, and otherwise only a JSON boolean decodes. */
  function DecodeBool(v: Option<Json>): (r: Option<bool>)
    ensures v.None? || v == Some(JNull) ==> r == Some(false)
    ensures r.Some? && v.Some? && v != Some(JNull) ==> v.value == JBool(r.value)
  {
    match v
    case None => Some(false)
    case Some(JNull) => Some(false)
    case Some(JBool(b)) => Some(b)
    case Some(_) => None
  }

  /** An `int` field of a 64-bit build: only integer literals that fit. */
  function DecodeInt(v: Option<Json>): (r: Option<int>)
    ensures r.Some? ==> Text.MinInt64 <= r.value <= Text.MaxInt64
  {
    match v
    case None => Some(0)
    case Some(JNull) => Some(0)
    case Some(JInt(i)) => if Text.MinInt64 <= i <= Text.MaxInt64 then Some(i) else None
    case Some(_) => None
  }

  /** Decodes every item, in order; one failure fails the lot. */
  function DecodeAll<T>(items: seq<Json>, decode: Json -> Option<T>): (r: Option<seq<T>>)
    ensures r.Some? <==> forall i | 0 <= i < |items| :: decode(items[i]).Some?
    ensures r.Some? ==>
      (&& |r.value| == |items|
       && forall i | 0 <= i < |items| :: decode(items[i]) == Some(r.value[i]))
  {
    if items == [] then Some([])
    else
      var head, tail := decode(items[0]), DecodeAll(items[1..], decode);
      if head.Some? && tail.Some? then Some([head.value] + tail.value)
      else
        assert head.None? || exists i | 1 <= i < |items| :: decode(items[i]).None? by {
          if head.Some? {
            var i :| 0 <= i < |items[1..]| && decode(items[1..][i]).None?;
            assert decode(items[i + 1]).None?;
          }
        }
        None
  }

  /**
   * A slice field: absent or `null` is the empty slice; otherwise only an array decodes,
   * one item per element.
   */
  function DecodeList<T>(v: Option<Json>, decode: Json -> Option<T>): (r: Option<seq<T>>)
    ensures v.None? || v == Some(JNull) ==> r == Some([])
    ensures r.Some? && v.Some? && v != Some(JNull) ==>
      v.value.JArray? && |r.value| == |v.value.items|
      && forall i | 0 <= i < |r.value| :: decode(v.value.items[i]) == Some(r.value[i])
  {
    match v
    case None => Some([])
    case Some(JNull) => Some([])
    case Some(JArray(items)) => DecodeAll(items, decode)
    case Some(_) => None
  }

  /** A pointer-to-struct field: absent or `null` is nil; anything else must decode, and is never nil. */
  function DecodePointer<T>(v: Option<Json>, decode: Json -> Option<T>): (r: Option<Option<T>>)
    ensures v.None? || v == Some(JNull) ==> r == Some(None)
    ensures r.Some? && v.Some? && v != Some(JNull) ==> r.value.Some? && decode(v.value) == r.value
  {
    match v
    case None => Some(None)
    case Some(JNull) => Some(None)
    case Some(j) =>
      match decode(j)
      case Some(x) => Some(Some(x))
      case None => None
  }

  /** Encodes every item, in order. */
  function EncodeAll<T>(xs: seq<T>, encode: T -> Json): (r: seq<Json>)
    ensures |r| == |xs| && forall i | 0 <= i < |xs| :: r[i] == encode(xs[i])
  {
    seq(|xs|, i requires 0 <= i < |xs| => encode(xs[i]))
  }

  /** Decoding items that were each encoded from a value gives the values back. */
  lemma DecodeAllEncoded<T>(xs: seq<T>, encode: T -> Json, decode: Json -> Option<T>)
    requires forall x :: decode(encode(x)) == Some(x)
    ensures DecodeAll(EncodeAll(xs, encode), decode) == Some(xs)
  {
    var items := EncodeAll(xs, encode);
    assert forall i | 0 <= i < |items| :: decode(items[i]) == Some(xs[i]);
    var r := DecodeAll(items, decode);
    assert r.Some?;
    assert r.value == xs;
  }
}
