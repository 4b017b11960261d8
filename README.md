# GraphQL client errors, modelled in Dafny

A GraphQL server puts the errors it hit while running a query in the
`errors` array of its response. The Go client exposes them as a value of
type `Errors`, a slice of `Error`, that also satisfies Go's `error`
interface. When the value is used as a plain error, its text is:

- `no errors` for an empty slice;
- otherwise `graphql: ` followed by the messages of all errors, in stored
  order, joined by `; `.

A single `Error` renders as `graphql: ` followed by its message. Locations,
path and extensions are never rendered.

This project models these data shapes and both renderings, and proves
properties of them:

- `go_strings.dfy` (module `GoStrings`): Go's `strings.Join` as a recursive
  function. Its contract gives the length. Lemmas say where each part and
  each separator sits in the result, and what appending a part does.
- `graphql_errors.dfy` (module `GraphqlErrors`):
  - the datatypes `Location`, `PathSegment` (`Name` or `Index`) and
    `Error`, with `Errors` as a sequence of `Error`. Extension values are an
    abstract type `ExtensionValue`;
  - `ErrorText`, which models `Error.Error()`;
  - `ErrorsText`, the pure specification of `Errors.Error()`;
  - `ErrorsError`, the imperative version. Like the source, it fills a new
    array of messages in a loop and then joins it. It is proved equal to
    `ErrorsText`.
  - lemmas for the empty case, the one-element case, appending an error,
    the output length, messages copied verbatim at computed offsets, and
    the rendering depending only on messages.

The source is `graphql_errors.go`. The prefix `graphql: ` has 9 characters:
`graphql`, a colon and a space. So a single error with an empty message
renders as a 9-character text.

## Model

| member | source | states |
|---|---|---|
| `GoStrings.Join` | graphql_errors.go:32 | The join of zero parts is empty. Otherwise its length is the sum of the parts' lengths plus one separator between each pair of neighbours. |
| `GoStrings.JoinSnoc` | graphql_errors.go:32 | Joining a non-empty list with one more part at the end gives the old join, then the separator, then that part. |
| `GoStrings.JoinAt` | graphql_errors.go:32 | Part i appears verbatim at its offset: the lengths of the earlier parts plus one separator per earlier part. The separator appears verbatim right after every part except the last. |
| `GoStrings.JoinEnd` | graphql_errors.go:32 | The last part ends the joined string, so there is no trailing separator. |
| `GoStrings.OffsetNext` | graphql_errors.go:32 | The next part starts one part and one separator after the current one. |
| `GraphqlErrors.ErrorText` | graphql_errors.go:53-55 | A single error's text is `graphql: ` followed by the unchanged message, and its length is 9 plus the message length. |
| `GraphqlErrors.ErrorsText` | graphql_errors.go:24-33 | The rendering is `no errors` exactly when the list is empty. A non-empty list's rendering starts with `graphql: `. |
| `GraphqlErrors.ErrorsError` | graphql_errors.go:24-33 | The loop fills the new array so that element k is the k-th message. The method's result equals the specification `ErrorsText` for every list. |
| `GraphqlErrors.TotalMessageLengthIsSum` | graphql_errors.go:28-31 | The summed lengths of the collected messages equal the total message length of the errors. |
| `GraphqlErrors.EmptyErrorsText` | graphql_errors.go:25-27 | An empty list renders as exactly `no errors`, which has 9 characters. |
| `GraphqlErrors.SingleErrorsText` | graphql_errors.go:28-32 | A one-element list renders the same as its error's own text, `graphql: ` followed by the message, with no separator. |
| `GraphqlErrors.AppendErrorsText` | graphql_errors.go:32 | Appending an error to a non-empty list adds `; ` and its message to the end of the rendering. |
| `GraphqlErrors.ErrorsTextLength` | graphql_errors.go:28-32 | A non-empty list of n errors renders to 9 + (sum of message lengths) + 2(n-1) characters. |
| `GraphqlErrors.ErrorsTextMessageAt` | graphql_errors.go:28-32 | Message i appears verbatim at its computed offset. Exactly `; ` stands between neighbouring messages. The last message ends the text. |
| `GraphqlErrors.EmptyMessageText` | graphql_errors.go:53-55 | An error with an empty message renders, alone or as a one-element list, as exactly `graphql: `. |
| `GraphqlErrors.ErrorTextIgnoresDetails` | graphql_errors.go:53-55 | Replacing an error's locations, path and extensions does not change its text. |
| `GraphqlErrors.ErrorsTextOnlyMessages` | graphql_errors.go:29-30 | Two lists whose messages agree position by position render the same, whatever their other fields hold. |
| `GraphqlErrors.SeparatorNotEscaped` | graphql_errors.go:30-32 | The messages `a; b` and `c` render as `graphql: a; b; c`, the same as the three messages `a`, `b` and `c`. Nothing is escaped. |
| `GraphqlErrors.ThreeErrorsText` | graphql_errors.go:28-32 | The messages `E1`, `E2` and `E3` render in order as `graphql: E1; E2; E3`. |

## Left out

- Go's `error` interface, and the type assertion `err.(graphql.Errors)` that callers use to get at the structured errors (graphql_errors.go:5-18). These are runtime dispatch, not logic. The model's two rendering functions stand for the two `Error()` methods.
- Decoding the JSON response, transport and the client that builds these values. They are not part of this model.
- The dynamic types inside `Path []interface{}` and `Extensions map[string]interface{}`. Path segments are a tagged `Name`/`Index` variant. Extension values are an abstract type that supports only equality, because nothing reads them. In Go, a JSON number in a path decodes to a `float64`. The model uses an `int` for path indices, so there is no floating point.
- Go strings are byte sequences and `len` counts bytes. The model uses `seq<char>`, so lengths count characters. The two agree for ASCII messages.
- `strings.Join` builds its result in a pre-sized buffer. The model states what the result is, not how it is built.
