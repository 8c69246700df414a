# Param2OfSimpleGet — verified model of a generated enum codec

The Java server generated for the `simpleGet` operation carries an enum,
`com.example.Param2OfSimpleGet`, for its `param2` query parameter. The enum
has two constants, `VALUE1` and `VALUE2`, each built with a fixed wire string
(`"value1"`, `"value2"`) kept in the final field `strValue`. Around them the
generated code offers:

- `parseString`: an exact, case-sensitive `switch` from a string to a
  constant; any other string throws `UnsupportedOperationException` with the
  message `"Unsupported value " + value`;
- `writeString`: the constant's `strValue`;
- `createParser`: a JSON scalar parser that accepts only string tokens and
  decodes the token's text with `parseString`;
- `WRITER`: a JSON writer that emits the constant's `strValue` as a string.

This project models that codec in Dafny (module `Example`, after the Java
package; `Wrappers` holds `Option` and `Result`) and proves both round trips,
the exactness of the match, the injectivity of the encoding, the agreement
of the JSON writer and parser with the string codec, and the agreement of
`parseString` with an independent definition: the lookup of the string
among the constants listed by `values()`.

The thrown exception is modelled as the `Err` case of a `Result`, carrying
its message. JSON tokens are modelled abstractly as a kind (a string token or
anything else) plus the token's text; a token the parser's test refuses gives
`None`.

## Model

| member | source | states |
|---|---|---|
| Example.StrValue | generators/java/reactor-netty/expected-server/src/main/java/com/example/Param2OfSimpleGet.java:7-15 | `VALUE1` carries `"value1"` and `VALUE2` carries `"value2"` |
| Example.ValuesEnumerates | generators/java/reactor-netty/expected-server/src/main/java/com/example/Param2OfSimpleGet.java:6-8 | the constants in declaration order list every constant exactly once |
| Example.ParseString | generators/java/reactor-netty/expected-server/src/main/java/com/example/Param2OfSimpleGet.java:30-39 | succeeds iff the input is exactly `"value1"` or `"value2"`, mapping them to `VALUE1` and `VALUE2`; a success yields a constant whose `strValue` is the input; a failure carries the message `"Unsupported value "` followed by the input |
| Example.WriteString | generators/java/reactor-netty/expected-server/src/main/java/com/example/Param2OfSimpleGet.java:41-43 | returns the constant's `strValue`, and `parseString` of it gives back the same constant (round trip) |
| Example.ParseThenWrite | generators/java/reactor-netty/expected-server/src/main/java/com/example/Param2OfSimpleGet.java:30-43 | reverse round trip: if `parseString(s)` yields `v` then `writeString(v) == s` |
| Example.WriteStringInjective | generators/java/reactor-netty/expected-server/src/main/java/com/example/Param2OfSimpleGet.java:7-8 | distinct constants have distinct wire strings |
| Example.AcceptsExactlyWireStrings | generators/java/reactor-netty/expected-server/src/main/java/com/example/Param2OfSimpleGet.java:30-43 | a string is accepted by `parseString` iff it is the `writeString` of some constant |
| Example.ParseIsExact | generators/java/reactor-netty/expected-server/src/main/java/com/example/Param2OfSimpleGet.java:31-37 | case variants (`"Value1"`, `"VALUE1"`), padded (`"value1 "`, `" value2"`), truncated, empty and unknown strings are all rejected |
| Example.Lookup | generators/java/reactor-netty/expected-server/src/main/java/com/example/Param2OfSimpleGet.java:6-11 | reference decoder: a found constant is in the list and carries the string; not found means no listed constant carries it |
| Example.ParseStringIsLookup | generators/java/reactor-netty/expected-server/src/main/java/com/example/Param2OfSimpleGet.java:30-38 | `parseString` returns exactly the constant found by looking the string up among `values()`, and fails exactly when that lookup finds none |
| Example.ErrorNamesInput | generators/java/reactor-netty/expected-server/src/main/java/com/example/Param2OfSimpleGet.java:36-37 | the unsupported-value error determines the rejected input: equal errors come from equal inputs |
| Example.ParseToken | generators/java/reactor-netty/expected-server/src/main/java/com/example/Param2OfSimpleGet.java:17-24 | the scalar parser accepts a token iff it is a string token, and then its result is `parseString` of the token text |
| Example.Write | generators/java/reactor-netty/expected-server/src/main/java/com/example/Param2OfSimpleGet.java:27-28 | `WRITER` emits a string token whose text is exactly `writeString` of the constant |
| Example.WriteThenParseToken | generators/java/reactor-netty/expected-server/src/main/java/com/example/Param2OfSimpleGet.java:17-28 | what `WRITER` emits, the parser from `createParser` reads back as the same constant |

## Left out

- `SimpleRoutes.java` (HTTP route registration, `Mono` pipelines, response headers): network I/O and reactive plumbing over libraries that are not part of this model. Its null guard around `parseString` for an absent `param2` is not modelled either.
- Jackson types (`JsonToken`, `JsonParser.getText`, `JsonGenerator.writeString`) and the `ScalarParser`, `NonBlockingParser` and `Writer` library types are foreign code; only their meaning is kept: a token kind test, the token text, and one emitted string token. What `ScalarParser` does with a refused token is not part of this model (`ParseToken` returns `None`).
- The `NullPointerException` Java's `switch` throws on a `null` string: Dafny strings cannot be null.
- The exception type is kept only as the `UnsupportedOperation` error with its message; stack traces and exception propagation are not modelled.
