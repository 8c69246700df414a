/**
  The generated Java enum `com.example.Param2OfSimpleGet`: a closed set of
  constants, each carrying the fixed string it has on the wire, with a
  string decoder (`parseString`), a string encoder (`writeString`), a JSON
  scalar parser (`createParser`) and a JSON writer (`WRITER`).
 */
module Example {
  import opened Wrappers

  /** The two enum constants, `VALUE1` and `VALUE2`. */
  datatype Param2OfSimpleGet = Value1 | Value2

  /** The exception `parseString` throws on an unknown string: an
      `UnsupportedOperationException` with its message. */
  datatype Error = UnsupportedOperation(message: string)

  /** The message prefix of the unsupported-value exception. */
  const UnsupportedPrefix: string := "Unsupported value "

  /** The final `strValue` field each constant is constructed with. */
  function StrValue(v: Param2OfSimpleGet): (s: string)
    ensures v == Value1 ==> s == "value1"
    ensures v == Value2 ==> s == "value2"
  {
    match v
    case Value1 => "value1"
    case Value2 => "value2"
  }

  /** The enum's constants in declaration order (Java's `values()`). */
  function Values(): seq<Param2OfSimpleGet> {
    [Value1, Value2]
  }

  /** `values()` lists every constant, each exactly once. */
  lemma ValuesEnumerates(v: Param2OfSimpleGet)
    ensures v in Values()
    ensures multiset(Values())[v] == 1
  {
  }

  /** `parseString`: an exact, case-sensitive switch over the wire strings;
      anything else is rejected with "Unsupported value <input>". */
  function ParseString(value: string): (r: Result<Param2OfSimpleGet, Error>)
    ensures r.Ok? <==> value == "value1" || value == "value2"
    ensures value == "value1" ==> r == Ok(Value1)
    ensures value == "value2" ==> r == Ok(Value2)
    ensures r.Ok? ==> StrValue(r.value) == value
    ensures r.Err? ==> r.error.message == UnsupportedPrefix + value
  {
    if value == "value1" then Ok(Value1)
    else if value == "value2" then Ok(Value2)
    else Err(UnsupportedOperation(UnsupportedPrefix + value))
  }

  /** `writeString`: the constant's `strValue`; `parseString` inverts it. */
  function WriteString(v: Param2OfSimpleGet): (s: string)
    ensures s == StrValue(v)
    ensures ParseString(s) == Ok(v)
  {
    StrValue(v)
  }

  /** Reverse round trip: a string that parses is the wire string of the
      constant it parses to. */
  lemma ParseThenWrite(s: string, v: Param2OfSimpleGet)
    requires ParseString(s) == Ok(v)
    ensures WriteString(v) == s
  {
  }

  /** Distinct constants have distinct wire strings. */
  lemma WriteStringInjective(v: Param2OfSimpleGet, w: Param2OfSimpleGet)
    requires WriteString(v) == WriteString(w)
    ensures v == w
  {
  }

  /** The accepted strings are exactly the wire strings of the constants. */
  lemma AcceptsExactlyWireStrings(s: string)
    ensures ParseString(s).Ok? <==> exists v :: WriteString(v) == s
  {
    if s == "value1" {
      assert WriteString(Value1) == s;
    } else if s == "value2" {
      assert WriteString(Value2) == s;
    }
  }

  /** The match is exact and case-sensitive: case variants, padded and
      truncated forms and the constant names are all unsupported. */
  lemma ParseIsExact()
    ensures ParseString("Value1").Err? && ParseString("VALUE1").Err?
    ensures ParseString("value1 ").Err? && ParseString(" value2").Err?
    ensures ParseString("value").Err? && ParseString("").Err?
    ensures ParseString("value3").Err?
  {
  }

  /** Reference definition of decoding: the first constant, in declaration
      order, whose `strValue` equals `s`. */
  function Lookup(vs: seq<Param2OfSimpleGet>, s: string): (r: Option<Param2OfSimpleGet>)
    ensures r.Some? ==> r.value in vs && StrValue(r.value) == s
    ensures r.None? ==> forall v :: v in vs ==> StrValue(v) != s
  {
    if vs == [] then None
    else if StrValue(vs[0]) == s then Some(vs[0])
    else Lookup(vs[1..], s)
  }

  /** `parseString` agrees with looking the string up among `values()`,
      and fails exactly when no constant carries it. */
  lemma ParseStringIsLookup(s: string)
    ensures Lookup(Values(), s).Some? ==> ParseString(s) == Ok(Lookup(Values(), s).value)
    ensures Lookup(Values(), s).None? ==> ParseString(s) == Err(UnsupportedOperation(UnsupportedPrefix + s))
  {
  }

  /** The error message names the rejected input: distinct rejected strings
      give distinct messages. */
  lemma ErrorNamesInput(s: string, t: string)
    requires ParseString(s).Err? && ParseString(t).Err?
    requires ParseString(s) == ParseString(t)
    ensures s == t
  {
    var m := UnsupportedPrefix + s;
    assert m[|UnsupportedPrefix|..] == s;
  }

  /** Kind of the current JSON token, abstracted to what the parser tests. */
  datatype TokenKind = ValueString | NotString

  /** A JSON token: its kind and its text. */
  datatype Token = Token(kind: TokenKind, text: string)

  /** The token test given to the scalar parser by `createParser`. */
  predicate AcceptsToken(kind: TokenKind) {
    kind == ValueString
  }

  /** The scalar parser built by `createParser`: `None` when the token test
      refuses the token, otherwise `parseString` of the token's text. */
  function ParseToken(t: Token): (r: Option<Result<Param2OfSimpleGet, Error>>)
    ensures r.Some? <==> t.kind == ValueString
    ensures r.Some? ==> r.value == ParseString(t.text)
  {
    if AcceptsToken(t.kind) then Some(ParseString(t.text)) else None
  }

  /** `WRITER`: emits the constant as a JSON string token. */
  function Write(v: Param2OfSimpleGet): (t: Token)
    ensures t.kind == ValueString && t.text == WriteString(v)
  {
    Token(ValueString, StrValue(v))
  }

  /** What `WRITER` emits, the parser from `createParser` reads back as the
      same constant. */
  lemma WriteThenParseToken(v: Param2OfSimpleGet)
    ensures ParseToken(Write(v)) == Some(Ok(v))
  {
  }
}
