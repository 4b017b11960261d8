/** The errors a GraphQL server reports in a response, and their rendering
    as the single line of text that generic error handling shows. */
module GraphqlErrors {
  import opened GoStrings

  /** A position in the GraphQL document that caused an error. */
  datatype Location = Location(line: int, column: int)

  /** One key of the response path: a field name or a list index. */
  datatype PathSegment = Name(name: string) | Index(index: int)

  /** A value the server put in an error's extensions: any value at all.
      The rendering never looks inside it. */
  type ExtensionValue(==)

  /** One error returned by the GraphQL server. */
  datatype Error = Error(
    message: string,
    locations: seq<Location>,
    path: seq<PathSegment>,
    extensions: map<string, ExtensionValue>)

  /** All the errors returned by the server, in the order it returned them. */
  type Errors = seq<Error>

  const Prefix: string := "graphql: "
  const Separator: string := "; "
  const NoErrors: string := "no errors"

  /** `Error.Error()`: the prefix followed by the message, as it is. */
  function ErrorText(e: Error): (r: string)
    ensures |r| == |Prefix| + |e.message|
    ensures r[..|Prefix|] == Prefix && r[|Prefix|..] == e.message
  {
    Prefix + e.message
  }

  /** The messages of the errors, in order. */
  function Messages(errors: Errors): seq<string>
  {
    seq(|errors|, i requires 0 <= i < |errors| => errors[i].message)
  }

  /** What `Errors.Error()` returns: a fixed text for no errors, and
      otherwise the prefix once, followed by the messages joined by the
      separator. */
  function ErrorsText(errors: Errors): (r: string)
    ensures r == NoErrors <==> |errors| == 0
    ensures |errors| > 0 ==> |Prefix| <= |r| && r[..|Prefix|] == Prefix
  {
    if |errors| == 0 then NoErrors
    else
      var r := Prefix + Join(Messages(errors), Separator);
      assert r[0] != NoErrors[0];
      r
  }

  /** `Errors.Error()` as the source computes it: copy the messages into a
      freshly allocated slice of the same length, then join. */
  method ErrorsError(errors: Errors) returns (s: string)
    ensures s == ErrorsText(errors)
  {
    if |errors| == 0 {
      return NoErrors;
    }
    var errs := new string[|errors|];
    for i := 0 to |errors|
      invariant forall k :: 0 <= k < i ==> errs[k] == errors[k].message
    {
      errs[i] := errors[i].message;
    }
    assert errs[..] == Messages(errors);
    s := Prefix + Join(errs[..], Separator);
  }

  /** Sum of the lengths of all messages. */
  function TotalMessageLength(errors: Errors): nat
  {
    if |errors| == 0 then 0 else |errors[0].message| + TotalMessageLength(errors[1..])
  }

  lemma {:induction false} TotalMessageLengthIsSum(errors: Errors)
    ensures SumLengths(Messages(errors)) == TotalMessageLength(errors)
  {
    if |errors| > 0 {
      assert Messages(errors)[1..] == Messages(errors[1..]);
      TotalMessageLengthIsSum(errors[1..]);
    }
  }

  /** No errors render as exactly `no errors`. */
  lemma EmptyErrorsText()
    ensures ErrorsText([]) == "no errors"
    ensures |ErrorsText([])| == 9
  {
  }

  /** A list of one error renders exactly as that error does on its own. */
  lemma SingleErrorsText(e: Error)
    ensures ErrorsText([e]) == ErrorText(e)
    ensures ErrorsText([e]) == "graphql: " + e.message
  {
    assert Messages([e]) == [e.message];
  }

  /** One more error at the end adds the separator and its message. */
  lemma AppendErrorsText(errors: Errors, e: Error)
    requires |errors| > 0
    ensures ErrorsText(errors + [e]) == ErrorsText(errors) + Separator + e.message
  {
    assert Messages(errors + [e]) == Messages(errors) + [e.message];
    JoinSnoc(Messages(errors), e.message, Separator);
  }

  /** The length of a non-empty rendering: the prefix, every message, and one
      separator between each pair of neighbours. */
  lemma ErrorsTextLength(errors: Errors)
    requires |errors| > 0
    ensures |ErrorsText(errors)| == 9 + TotalMessageLength(errors) + 2 * (|errors| - 1)
  {
    TotalMessageLengthIsSum(errors);
  }

  /** Where message `i` starts in the rendering of a non-empty list. */
  function MessageOffset(errors: Errors, i: nat): nat
    requires i <= |errors|
  {
    |Prefix| + Offset(Messages(errors), Separator, i)
  }

  /** Each message is copied verbatim, with nothing escaped, and sits at its
      offset; between neighbours stands exactly `; `; the last message ends
      the text. */
  lemma ErrorsTextMessageAt(errors: Errors, i: nat)
    requires i < |errors|
    ensures MessageOffset(errors, i) + |errors[i].message| <= |ErrorsText(errors)|
    ensures ErrorsText(errors)[MessageOffset(errors, i)..MessageOffset(errors, i) + |errors[i].message|]
            == errors[i].message
    ensures i + 1 < |errors| ==>
              MessageOffset(errors, i + 1) == MessageOffset(errors, i) + |errors[i].message| + 2
    ensures i + 1 < |errors| ==>
              MessageOffset(errors, i + 1) <= |ErrorsText(errors)|
              && ErrorsText(errors)[MessageOffset(errors, i) + |errors[i].message|..MessageOffset(errors, i + 1)] == "; "
    ensures i + 1 == |errors| ==> MessageOffset(errors, i) + |errors[i].message| == |ErrorsText(errors)|
  {
    var ms := Messages(errors);
    var j := Join(ms, Separator);
    var r := ErrorsText(errors);
    JoinAt(ms, Separator, i);
    assert r == Prefix + j;
    var o := Offset(ms, Separator, i);
    var a := |ms[i]|;
    assert r[|Prefix| + o..|Prefix| + o + a] == j[o..o + a];
    if i + 1 < |errors| {
      OffsetNext(ms, Separator, i);
      assert r[|Prefix| + o + a..|Prefix| + o + a + 2] == j[o + a..o + a + 2];
    }
    if i + 1 == |errors| {
      JoinEnd(ms, Separator);
    }
  }

  /** An empty message leaves only the prefix. */
  lemma EmptyMessageText(e: Error)
    requires e.message == ""
    ensures ErrorText(e) == "graphql: "
    ensures ErrorsText([e]) == "graphql: "
  {
    SingleErrorsText(e);
  }

  /** Only the message is rendered: locations, path and extensions may be
      anything. */
  lemma ErrorTextIgnoresDetails(e: Error, locations: seq<Location>, path: seq<PathSegment>,
                                extensions: map<string, ExtensionValue>)
    ensures ErrorText(e.(locations := locations, path := path, extensions := extensions)) == ErrorText(e)
  {
  }

  /** Two lists whose messages agree one by one render the same, whatever
      else their errors hold. */
  lemma ErrorsTextOnlyMessages(a: Errors, b: Errors)
    requires |a| == |b|
    requires forall i :: 0 <= i < |a| ==> a[i].message == b[i].message
    ensures ErrorsText(a) == ErrorsText(b)
  {
    assert Messages(a) == Messages(b);
  }

  /** Because nothing is escaped, different lists can render the same: one
      message `a; b` reads like the two messages `a` and `b`. */
  lemma SeparatorNotEscaped(e1: Error, e2: Error, e3: Error, e4: Error, e5: Error)
    requires e1.message == "a; b" && e2.message == "c"
    requires e3.message == "a" && e4.message == "b" && e5.message == "c"
    ensures ErrorsText([e1, e2]) == "graphql: a; b; c"
    ensures ErrorsText([e1, e2]) == ErrorsText([e3, e4, e5])
  {
    assert Messages([e1, e2]) == ["a; b", "c"];
    assert Messages([e3, e4, e5]) == ["a", "b", "c"];
    assert Join(["b", "c"], Separator) == "b; c";
  }

  /** Three messages in order, as in `graphql: E1; E2; E3`. */
  lemma ThreeErrorsText(e1: Error, e2: Error, e3: Error)
    requires e1.message == "E1" && e2.message == "E2" && e3.message == "E3"
    ensures ErrorsText([e1, e2, e3]) == "graphql: E1; E2; E3"
  {
    assert Messages([e1, e2, e3]) == ["E1", "E2", "E3"];
    assert Join(["E2", "E3"], Separator) == "E2; E3";
  }
}
